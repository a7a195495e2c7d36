/**
 The items of an IDMap in the order of its hash table, and the history of what iterators have come by
 while items were removed.
 */
module IDMapData {
  const MAX_KEY := 0x7fff_ffff

  type KeyType = x: int | -MAX_KEY - 1 <= x <= MAX_KEY

  /** A pointer is known by a number. */
  type Pointer = int

  datatype Item = Item(id: KeyType, pointer: Pointer)

  /** What has happened since there were no iterators. */
  datatype Event =
    | Started(walker: nat)
    | Removed(id: KeyType)
    | Passed(walker: nat, id: KeyType, visited: bool)

  // ---------------------------------------------------------------------------------------
  // The items
  // ---------------------------------------------------------------------------------------

  function IdsTo(data: seq<Item>, n: nat): set<KeyType>
    requires n <= |data|
  {
    if n == 0 then {} else IdsTo(data, n - 1) + {data[n - 1].id}
  }

  function Ids(data: seq<Item>): set<KeyType> {
    IdsTo(data, |data|)
  }

  predicate Differ(data: seq<Item>, i: nat, j: nat)
    requires i < j < |data|
  {
    data[i].id != data[j].id
  }

  ghost predicate Distinct(data: seq<Item>) {
    forall i, j {:trigger Differ(data, i, j)} :: 0 <= i < j < |data| ==> Differ(data, i, j)
  }

  lemma {:induction false} IdsToHas(data: seq<Item>, n: nat, id: KeyType)
    requires n <= |data|
    ensures id in IdsTo(data, n) <==> exists i {:trigger data[i]} :: 0 <= i < n && data[i].id == id
  {
    if n > 0 {
      IdsToHas(data, n - 1, id);
      if id in IdsTo(data, n) {
        if data[n - 1].id != id {
          var i :| 0 <= i < n - 1 && data[i].id == id;
        }
      }
    }
  }

  lemma {:induction false} CountIds(data: seq<Item>, n: nat)
    requires Distinct(data) && n <= |data|
    ensures |IdsTo(data, n)| == n
  {
    if n > 0 {
      CountIds(data, n - 1);
      IdsToHas(data, n - 1, data[n - 1].id);
      forall i | 0 <= i < n - 1 ensures data[i].id != data[n - 1].id {
        assert Differ(data, i, n - 1);
      }
    }
  }

  function IndexOf(data: seq<Item>, id: KeyType, n: nat): (i: nat)
    requires n <= |data|
    ensures i <= n
    decreases n
  {
    if n == 0 then 0
    else
      var i := IndexOf(data, id, n - 1);
      if i < n - 1 then i else if data[n - 1].id == id then n - 1 else n
  }

  lemma {:induction false} IndexOfSpec(data: seq<Item>, id: KeyType, n: nat)
    requires n <= |data|
    ensures IndexOf(data, id, n) < n <==> id in IdsTo(data, n)
    ensures IndexOf(data, id, n) < n ==> data[IndexOf(data, id, n)].id == id
    decreases n
  {
    if n > 0 {
      IndexOfSpec(data, id, n - 1);
    }
  }

  function PointerSeq(data: seq<Item>): seq<Pointer> {
    seq(|data|, i requires 0 <= i < |data| => data[i].pointer)
  }

  function Pointers(data: seq<Item>): multiset<Pointer> {
    multiset(PointerSeq(data))
  }

  function Without(data: seq<Item>, i: nat): seq<Item>
    requires i < |data|
  {
    data[..i] + data[i + 1..]
  }

  function With(data: seq<Item>, i: nat, item: Item): seq<Item>
    requires i <= |data|
  {
    data[..i] + [item] + data[i..]
  }

  lemma PointersWithout(data: seq<Item>, i: nat)
    requires i < |data|
    ensures Pointers(data) == Pointers(Without(data, i)) + multiset{data[i].pointer}
  {
    var s := PointerSeq(data);
    assert s == s[..i] + [s[i]] + s[i + 1..];
    assert PointerSeq(Without(data, i)) == s[..i] + s[i + 1..];
  }

  lemma PointersWith(data: seq<Item>, i: nat, item: Item)
    requires i <= |data|
    ensures Pointers(With(data, i, item)) == Pointers(data) + multiset{item.pointer}
  {
    WithoutWith(data, i, item);
    PointersWithout(With(data, i, item), i);
  }

  lemma WithoutWith(data: seq<Item>, i: nat, item: Item)
    requires i <= |data|
    ensures i < |With(data, i, item)| && With(data, i, item)[i] == item
    ensures Without(With(data, i, item), i) == data
  {
  }

  lemma IdsWithout(data: seq<Item>, i: nat)
    requires i < |data| && Distinct(data)
    ensures Distinct(Without(data, i))
    ensures Ids(Without(data, i)) == Ids(data) - {data[i].id}
  {
    var rest := Without(data, i);
    forall j, k | 0 <= j < k < |rest| ensures Differ(rest, j, k) {
      assert Differ(data, if j < i then j else j + 1, if k < i then k else k + 1);
    }
    forall id ensures id in Ids(rest) <==> id in Ids(data) - {data[i].id} {
      IdsToHas(rest, |rest|, id);
      IdsToHas(data, |data|, id);
      if id in Ids(rest) {
        var j :| 0 <= j < |rest| && rest[j].id == id;
        var k := if j < i then j else j + 1;
        assert data[k] == rest[j];
        assert if k < i then Differ(data, k, i) else Differ(data, i, k);
      }
      if id in Ids(data) && id != data[i].id {
        var k :| 0 <= k < |data| && data[k].id == id;
        assert rest[if k < i then k else k - 1] == data[k];
      }
    }
  }

  lemma IdsWith(data: seq<Item>, i: nat, item: Item)
    requires i <= |data| && Distinct(data) && item.id !in Ids(data)
    ensures Distinct(With(data, i, item))
    ensures Ids(With(data, i, item)) == Ids(data) + {item.id}
  {
    var all := With(data, i, item);
    forall j | 0 <= j < |data| ensures data[j].id != item.id {
      IdsToHas(data, |data|, data[j].id);
    }
    forall j, k | 0 <= j < k < |all| ensures Differ(all, j, k) {
      if j != i && k != i {
        assert Differ(data, if j < i then j else j - 1, if k < i then k else k - 1);
      }
    }
    assert Without(all, i) == data;
    IdsWithout(all, i);
    IdsToHas(all, |all|, item.id);
    assert all[i] == item;
  }

  // ---------------------------------------------------------------------------------------
  // The history
  // ---------------------------------------------------------------------------------------

  /** The ids whose removal was asked for among the first n events. */
  function RemovedTo(history: seq<Event>, n: nat): set<KeyType>
    requires n <= |history|
  {
    if n == 0 then {}
    else RemovedTo(history, n - 1) + if history[n - 1].Removed? then {history[n - 1].id} else {}
  }

  /** How many items an iterator has passed among the first n events: visited, or skipped as removed. */
  function PassesTo(history: seq<Event>, walker: nat, n: nat): nat
    requires n <= |history|
  {
    if n == 0 then 0
    else
      PassesTo(history, walker, n - 1)
      + if history[n - 1].Passed? && history[n - 1].walker == walker then 1 else 0
  }

  /** Event k, if it is a pass, passes the next item in order, and visits it unless it has been removed. */
  predicate PassOk(data: seq<Item>, history: seq<Event>, k: nat)
    requires k < |history|
  {
    history[k].Passed? ==>
      var e := history[k];
      var p := PassesTo(history, e.walker, k);
      && p < |data| && data[p].id == e.id
      && (e.visited <==> e.id !in RemovedTo(history, k))
  }

  ghost predicate HistoryOk(data: seq<Item>, history: seq<Event>) {
    forall k {:trigger PassOk(data, history, k)} :: 0 <= k < |history| ==> PassOk(data, history, k)
  }

  lemma {:induction false} PrefixFacts(history: seq<Event>, e: Event, walker: nat, n: nat)
    requires n <= |history|
    ensures RemovedTo(history + [e], n) == RemovedTo(history, n)
    ensures PassesTo(history + [e], walker, n) == PassesTo(history, walker, n)
  {
    if n > 0 {
      PrefixFacts(history, e, walker, n - 1);
    }
  }

  function RemovedIn(history: seq<Event>): set<KeyType> {
    RemovedTo(history, |history|)
  }

  function Passes(history: seq<Event>, walker: nat): nat {
    PassesTo(history, walker, |history|)
  }

  lemma EventAdded(history: seq<Event>, e: Event, walker: nat)
    ensures RemovedIn(history + [e]) == RemovedIn(history) + if e.Removed? then {e.id} else {}
    ensures Passes(history + [e], walker)
         == Passes(history, walker) + if e.Passed? && e.walker == walker then 1 else 0
  {
    PrefixFacts(history, e, walker, |history|);
  }

  lemma HistoryExtends(data: seq<Item>, history: seq<Event>, e: Event)
    requires HistoryOk(data, history)
    requires e.Passed? ==>
               && Passes(history, e.walker) < |data| && data[Passes(history, e.walker)].id == e.id
               && (e.visited <==> e.id !in RemovedIn(history))
    ensures HistoryOk(data, history + [e])
  {
    var next := history + [e];
    forall k | 0 <= k < |next| ensures PassOk(data, next, k) {
      if next[k].Passed? {
        PrefixFacts(history, e, next[k].walker, k);
      }
      assert k < |history| ==> PassOk(data, history, k);
    }
  }

  lemma {:induction false} PassesMonotone(history: seq<Event>, walker: nat, m: nat, n: nat)
    requires m <= n <= |history|
    ensures PassesTo(history, walker, m) <= PassesTo(history, walker, n)
    ensures RemovedTo(history, m) <= RemovedTo(history, n)
  {
    if m < n {
      PassesMonotone(history, walker, m, n - 1);
    }
  }

  /** The event by which an iterator passed item p. */
  lemma {:induction false} FindPass(history: seq<Event>, walker: nat, p: nat, n: nat) returns (k: nat)
    requires n <= |history| && p < PassesTo(history, walker, n)
    ensures k < n && history[k].Passed? && history[k].walker == walker && PassesTo(history, walker, k) == p
  {
    if p < PassesTo(history, walker, n - 1) {
      k := FindPass(history, walker, p, n - 1);
    } else {
      k := n - 1;
    }
  }

  /** Event s is where the iterator was made, and it has come by nothing before. */
  predicate BeginsAt(history: seq<Event>, walker: nat, s: nat) {
    s < |history| && history[s] == Started(walker) && PassesTo(history, walker, s) == 0
  }

  lemma BeginsExtends(history: seq<Event>, e: Event, walker: nat, s: nat)
    ensures BeginsAt(history, walker, s) ==> BeginsAt(history + [e], walker, s)
    ensures e == Started(walker) && Passes(history, walker) == 0 ==> BeginsAt(history + [e], walker, |history|)
  {
    if s < |history| {
      PrefixFacts(history, e, walker, s);
    }
    PrefixFacts(history, e, walker, |history|);
  }

  /**
   Each item an iterator has come by it has passed exactly once, after it was made, and it has visited
   the item exactly if its removal had not been asked for by then; so it visits only what was live when
   it was made.
   */
  lemma EachOnce(data: seq<Item>, history: seq<Event>, walker: nat, s: nat, p: nat) returns (k: nat)
    requires HistoryOk(data, history) && Distinct(data) && p < Passes(history, walker) && p < |data|
    requires BeginsAt(history, walker, s)
    ensures s < k < |history|
    ensures history[k] == Passed(walker, data[p].id, data[p].id !in RemovedTo(history, k))
    ensures data[p].id in RemovedTo(history, s) ==> !history[k].visited
    ensures forall j :: 0 <= j < |history| && j != k && history[j].Passed? && history[j].walker == walker ==>
              history[j].id != data[p].id
  {
    k := FindPass(history, walker, p, |history|);
    assert PassOk(data, history, k);
    if k < s {
      PassesMonotone(history, walker, k + 1, s);
    }
    PassesMonotone(history, walker, s, k);
    forall j | 0 <= j < |history| && j != k && history[j].Passed? && history[j].walker == walker
      ensures history[j].id != data[p].id
    {
      assert PassOk(data, history, j);
      var q := PassesTo(history, walker, j);
      if j < k {
        PassesMonotone(history, walker, j + 1, k);
        assert Differ(data, q, p);
      } else {
        PassesMonotone(history, walker, k + 1, j);
        assert Differ(data, p, q);
      }
    }
  }

  // ---------------------------------------------------------------------------------------
  // Keeping track of the iterators there are
  // ---------------------------------------------------------------------------------------

  /**
   For each iterator there is, known by a number: how many items it has come by, and where in the
   history it was made.
   */
  datatype Track = Track(history: seq<Event>, passes: map<nat, nat>, starts: map<nat, nat>, next: nat)

  predicate IteratorOk(data: seq<Item>, track: Track, n: nat) {
    && n in track.passes && n in track.starts && n < track.next
    && Passes(track.history, n) == track.passes[n] <= |data|
    && BeginsAt(track.history, n, track.starts[n])
  }

  ghost predicate Tracks(data: seq<Item>, removedIds: set<KeyType>, track: Track) {
    var history := track.history;
    && HistoryOk(data, history) && removedIds == RemovedIn(history) && removedIds <= Ids(data)
    && (forall n {:trigger IteratorOk(data, track, n)} :: n in track.passes ==> IteratorOk(data, track, n))
    && (forall n {:trigger Passes(history, n)} :: n >= track.next ==> Passes(history, n) == 0)
  }

  lemma TrackNothing(data: seq<Item>, next: nat)
    ensures Tracks(data, {}, Track([], map[], map[], next))
  {
  }

  /** A further iterator is made. */
  lemma TrackStart(data: seq<Item>, removedIds: set<KeyType>, track: Track)
    requires Tracks(data, removedIds, track)
    ensures track.next !in track.passes
    ensures Tracks(data, removedIds, WithStart(track))
  {
    var e, n := Started(track.next), track.next;
    var after := WithStart(track);
    HistoryExtends(data, track.history, e);
    EventAdded(track.history, e, n);
    assert Passes(track.history, n) == 0;
    BeginsExtends(track.history, e, n, |track.history|);
    assert n in track.passes ==> IteratorOk(data, track, n);
    forall m | m in after.passes ensures IteratorOk(data, after, m) {
      if m != n {
        assert IteratorOk(data, track, m);
        EventAdded(track.history, e, m);
        BeginsExtends(track.history, e, m, track.starts[m]);
      }
    }
    forall m: nat | m >= after.next ensures Passes(after.history, m) == 0 {
      EventAdded(track.history, e, m);
    }
  }

  function WithStart(track: Track): Track {
    Track(track.history + [Started(track.next)], track.passes[track.next := 0],
          track.starts[track.next := |track.history|], track.next + 1)
  }

  /** An iterator comes by its next item. */
  function WithPass(data: seq<Item>, removedIds: set<KeyType>, track: Track, n: nat): Track
    requires n in track.passes && track.passes[n] < |data|
  {
    var id := data[track.passes[n]].id;
    track.(history := track.history + [Passed(n, id, id !in removedIds)],
           passes := track.passes[n := track.passes[n] + 1])
  }

  lemma TrackPass(data: seq<Item>, removedIds: set<KeyType>, track: Track, n: nat)
    requires Tracks(data, removedIds, track) && n in track.passes && track.passes[n] < |data|
    ensures Tracks(data, removedIds, WithPass(data, removedIds, track, n))
  {
    var after := WithPass(data, removedIds, track, n);
    var e := after.history[|track.history|];
    assert IteratorOk(data, track, n);
    HistoryExtends(data, track.history, e);
    EventAdded(track.history, e, n);
    forall m | m in after.passes ensures IteratorOk(data, after, m) {
      assert IteratorOk(data, track, m);
      EventAdded(track.history, e, m);
      BeginsExtends(track.history, e, m, track.starts[m]);
    }
    forall m: nat | m >= after.next ensures Passes(after.history, m) == 0 {
      EventAdded(track.history, e, m);
    }
  }

  /** A removal is asked for. */
  lemma TrackRemoval(data: seq<Item>, removedIds: set<KeyType>, track: Track, id: KeyType)
    requires Tracks(data, removedIds, track) && id in Ids(data)
    ensures Tracks(data, removedIds + {id}, track.(history := track.history + [Removed(id)]))
  {
    var e := Removed(id);
    var after := track.(history := track.history + [e]);
    HistoryExtends(data, track.history, e);
    EventAdded(track.history, e, 0);
    forall m | m in after.passes ensures IteratorOk(data, after, m) {
      assert IteratorOk(data, track, m);
      EventAdded(track.history, e, m);
      BeginsExtends(track.history, e, m, track.starts[m]);
    }
    forall m: nat | m >= after.next ensures Passes(after.history, m) == 0 {
      EventAdded(track.history, e, m);
    }
  }

  /** An iterator goes. */
  lemma TrackLeave(data: seq<Item>, removedIds: set<KeyType>, track: Track, n: nat)
    requires Tracks(data, removedIds, track) && n in track.passes
    ensures Tracks(data, removedIds, track.(passes := track.passes - {n}))
    ensures |track.passes - {n}| == |track.passes| - 1
  {
    var after := track.(passes := track.passes - {n});
    assert track.passes.Keys - {n} == after.passes.Keys;
    forall m | m in after.passes ensures IteratorOk(data, after, m) {
      assert IteratorOk(data, track, m);
    }
  }

  // ---------------------------------------------------------------------------------------
  // Where one iterator stands
  // ---------------------------------------------------------------------------------------

  /** Where an iterator stands once it has been made or has advanced, and what was to be removed by then. */
  datatype Stop = Stop(position: nat, removed: set<KeyType>)

  function From(stops: seq<Stop>, k: nat): nat
    requires k <= |stops|
  {
    if k == 0 then 0 else stops[k - 1].position + 1
  }

  /** Stop k is at the first item from there on that is not to be removed, or at the end. */
  ghost predicate StopOk(data: seq<Item>, stops: seq<Stop>, k: nat)
    requires k < |stops|
  {
    var p, removed := stops[k].position, stops[k].removed;
    && From(stops, k) <= p <= |data|
    && (forall q :: From(stops, k) <= q < p ==> data[q].id in removed)
    && (p < |data| ==> data[p].id !in removed)
    && (k > 0 ==> stops[k - 1].removed <= removed)
  }

  ghost predicate StopsOk(data: seq<Item>, stops: seq<Stop>) {
    forall k {:trigger StopOk(data, stops, k)} :: 0 <= k < |stops| ==> StopOk(data, stops, k)
  }

  lemma StopAdded(data: seq<Item>, stops: seq<Stop>, stop: Stop)
    requires StopsOk(data, stops)
    requires From(stops, |stops|) <= stop.position <= |data|
    requires forall q :: From(stops, |stops|) <= q < stop.position ==> data[q].id in stop.removed
    requires stop.position < |data| ==> data[stop.position].id !in stop.removed
    requires stops != [] ==> stops[|stops| - 1].removed <= stop.removed
    ensures StopsOk(data, stops + [stop])
  {
    forall k | 0 <= k < |stops| + 1 ensures StopOk(data, stops + [stop], k) {
      if k < |stops| {
        assert StopOk(data, stops, k);
      }
    }
  }

  /** The ids that are current at the first n stops. */
  function Shown(data: seq<Item>, stops: seq<Stop>, n: nat): seq<KeyType>
    requires n <= |stops|
  {
    if n == 0 then []
    else
      var p := stops[n - 1].position;
      Shown(data, stops, n - 1) + if p < |data| then [data[p].id] else []
  }

  /** What was to be removed when the iterator came by item p, on its way to the first stop that is not before it. */
  function RemovedWhenReached(stops: seq<Stop>, k: nat, p: nat): set<KeyType>
    requires k <= |stops|
    decreases |stops| - k
  {
    if k == |stops| then {}
    else if p <= stops[k].position then stops[k].removed
    else RemovedWhenReached(stops, k + 1, p)
  }

  /** The ids of those of the first n items whose removal had not been asked for when they were reached. */
  function LiveWhenReached(data: seq<Item>, stops: seq<Stop>, n: nat): seq<KeyType>
    requires n <= |data|
  {
    if n == 0 then []
    else
      LiveWhenReached(data, stops, n - 1)
      + if data[n - 1].id in RemovedWhenReached(stops, 0, n - 1) then [] else [data[n - 1].id]
  }

  lemma {:induction false} StopsRise(data: seq<Item>, stops: seq<Stop>, j: nat, k: nat)
    requires StopsOk(data, stops) && j < k < |stops|
    ensures stops[j].position < stops[k].position && stops[j].removed <= stops[k].removed
  {
    assert StopOk(data, stops, k);
    if j < k - 1 {
      StopsRise(data, stops, j, k - 1);
    }
  }

  lemma {:induction false} ReachedAt(data: seq<Item>, stops: seq<Stop>, j: nat, k: nat, p: nat)
    requires StopsOk(data, stops) && j <= k < |stops|
    requires From(stops, k) <= p <= stops[k].position
    ensures RemovedWhenReached(stops, j, p) == stops[k].removed
    decreases k - j
  {
    if j < k {
      if j < k - 1 {
        StopsRise(data, stops, j, k - 1);
      }
      ReachedAt(data, stops, j + 1, k, p);
    }
  }

  /** Nothing that is skipped on the way to stop k is live. */
  lemma {:induction false} SkippedOnTheWay(data: seq<Item>, stops: seq<Stop>, k: nat, p: nat)
    requires StopsOk(data, stops) && k < |stops| && From(stops, k) <= p <= stops[k].position <= |data|
    ensures From(stops, k) <= |data| && LiveWhenReached(data, stops, p) == LiveWhenReached(data, stops, From(stops, k))
  {
    assert StopOk(data, stops, k);
    if From(stops, k) < p {
      SkippedOnTheWay(data, stops, k, p - 1);
      ReachedAt(data, stops, 0, k, p - 1);
    }
  }

  lemma {:induction false} ShownSoFar(data: seq<Item>, stops: seq<Stop>, n: nat)
    requires StopsOk(data, stops) && n <= |stops|
    ensures n > 0 && stops[n - 1].position >= |data| ==> Shown(data, stops, n) == LiveWhenReached(data, stops, |data|)
    ensures From(stops, n) <= |data| ==> Shown(data, stops, n) == LiveWhenReached(data, stops, From(stops, n))
  {
    if n > 0 {
      ShownSoFar(data, stops, n - 1);
      ShownAtStop(data, stops, n - 1);
    }
  }

  lemma ShownAtStop(data: seq<Item>, stops: seq<Stop>, k: nat)
    requires StopsOk(data, stops) && k < |stops|
    requires From(stops, k) <= |data| ==> Shown(data, stops, k) == LiveWhenReached(data, stops, From(stops, k))
    ensures stops[k].position >= |data| ==> Shown(data, stops, k + 1) == LiveWhenReached(data, stops, |data|)
    ensures stops[k].position < |data| ==>
              Shown(data, stops, k + 1) == LiveWhenReached(data, stops, stops[k].position + 1)
  {
    var p := stops[k].position;
    assert StopOk(data, stops, k);
    SkippedOnTheWay(data, stops, k, p);
    if p < |data| {
      ReachedAt(data, stops, 0, k, p);
    }
  }

  /**
   A loop from where an iterator is made to the end is shown, in the order of the table and each once, the ids whose
   removal had not been asked for when they were reached; so all that are live to the end, and none that was to
   be removed before the loop.
   */
  lemma LoopShowsLive(data: seq<Item>, stops: seq<Stop>)
    requires StopsOk(data, stops) && stops != [] && stops[|stops| - 1].position == |data|
    ensures Shown(data, stops, |stops|) == LiveWhenReached(data, stops, |data|)
    ensures forall p :: 0 <= p < |data| ==>
              stops[0].removed <= RemovedWhenReached(stops, 0, p) <= stops[|stops| - 1].removed
  {
    ShownSoFar(data, stops, |stops|);
    forall p | 0 <= p < |data|
      ensures stops[0].removed <= RemovedWhenReached(stops, 0, p) <= stops[|stops| - 1].removed
    {
      RemovedBetween(data, stops, 0, p);
    }
  }

  lemma {:induction false} RemovedBetween(data: seq<Item>, stops: seq<Stop>, k: nat, p: nat)
    requires StopsOk(data, stops) && k < |stops| && p <= stops[|stops| - 1].position
    ensures stops[0].removed <= RemovedWhenReached(stops, k, p) <= stops[|stops| - 1].removed
    decreases |stops| - k
  {
    if k > 0 {
      StopsRise(data, stops, 0, k);
    }
    if k < |stops| - 1 {
      StopsRise(data, stops, k, |stops| - 1);
      if p > stops[k].position {
        RemovedBetween(data, stops, k + 1, p);
      }
    }
  }

  // ---------------------------------------------------------------------------------------
  // Removing what is pending
  // ---------------------------------------------------------------------------------------

  /** The items whose ids are not among those to go, in their order. */
  function Left(data: seq<Item>, gone: set<KeyType>): seq<Item> {
    if data == [] then []
    else
      var n := |data| - 1;
      Left(data[..n], gone) + if data[n].id in gone then [] else [data[n]]
  }

  lemma {:induction false} LeftSum(a: seq<Item>, b: seq<Item>, gone: set<KeyType>)
    ensures Left(a + b, gone) == Left(a, gone) + Left(b, gone)
  {
    if b == [] {
      assert a + b == a;
    } else {
      var n := |b| - 1;
      assert (a + b)[..|a| + n] == a + b[..n];
      LeftSum(a, b[..n], gone);
    }
  }

  lemma {:induction false} LeftAll(data: seq<Item>, gone: set<KeyType>)
    requires forall i :: 0 <= i < |data| ==> data[i].id !in gone
    ensures Left(data, gone) == data
  {
    if data != [] {
      LeftAll(data[..|data| - 1], gone);
    }
  }

  lemma LeftOne(item: Item, gone: set<KeyType>)
    requires item.id in gone
    ensures Left([item], gone) == []
  {
    assert [item][..0] == [];
  }

  lemma LeftParts(front: seq<Item>, item: Item, back: seq<Item>, gone: set<KeyType>)
    requires item.id in gone
    ensures Left(front + [item] + back, gone) == Left(front + back, gone)
  {
    LeftOne(item, gone);
    LeftSum(front, [item], gone);
    LeftSum(front + [item], back, gone);
    LeftSum(front, back, gone);
  }

  /** Taking out one more. */
  lemma LeftAfter(data: seq<Item>, after: seq<Item>, gone: set<KeyType>, id: KeyType)
    requires exists i :: 0 <= i < |data| && data[i].id == id && after == Without(data, i)
    requires id in gone
    ensures Left(after, gone) == Left(data, gone)
  {
    var i :| 0 <= i < |data| && data[i].id == id && after == Without(data, i);
    assert data == data[..i] + [data[i]] + data[i + 1..];
    LeftParts(data[..i], data[i], data[i + 1..], gone);
  }

  /** Of what is to go `left` is still there; the rest of it has gone and nothing else has changed. */
  ghost predicate Compacting(before: seq<Item>, data: seq<Item>, gone: set<KeyType>, left: set<KeyType>) {
    var ids := Ids(before);
    left <= gone <= ids && Ids(data) == ids - (gone - left) && Left(data, gone) == Left(before, gone)
  }

  lemma CompactingOn(before: seq<Item>, data: seq<Item>, after: seq<Item>, gone: set<KeyType>, left: set<KeyType>,
                     id: KeyType)
    requires Compacting(before, data, gone, left) && id in left
    requires exists i :: 0 <= i < |data| && data[i].id == id && after == Without(data, i)
    requires Ids(after) == Ids(data) - {id}
    ensures Compacting(before, after, gone, left - {id})
  {
    LeftAfter(data, after, gone, id);
  }

  lemma Compacted(before: seq<Item>, data: seq<Item>, gone: set<KeyType>)
    requires Compacting(before, data, gone, {})
    ensures Ids(data) == Ids(before) - gone && data == Left(before, gone)
  {
    forall i | 0 <= i < |data| ensures data[i].id !in gone {
      IdsToHas(data, |data|, data[i].id);
    }
    LeftAll(data, gone);
  }
}
