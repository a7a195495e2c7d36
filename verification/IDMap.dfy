/**
 A map from ids to pointers that can be iterated over by any number of iterators at once, while items
 are removed: what is removed then stays where it is until the last iterator is gone.
 */
module IDMap {
  import opened Wrappers
  import opened IDMapData

  class IDMap {
    /** IDMapOwnPointer: the map deletes the pointers it lets go. */
    const owns: bool
    /** In the order of the hash table. */
    var data: seq<Item>
    var removedIds: set<KeyType>
    var iterationDepth: nat
    var nextId: KeyType
    /** All pointers that have been added, and those that have been deleted. */
    ghost var added: multiset<Pointer>
    ghost var released: multiset<Pointer>
    /** What has happened since there were no iterators. */
    ghost var track: Track

    /** Every pointer that has been added has been deleted or is in the map; none of another's is deleted. */
    ghost predicate Accounted()
      reads this
    {
      if owns then added == released + Pointers(data) else released == multiset{}
    }

    ghost predicate Sound()
      reads this
    {
      && Distinct(data) && Accounted() && iterationDepth == |track.passes|
      && (iterationDepth > 0 ==> Tracks(data, removedIds, track))
    }

    /** Removals are pending only while there are iterators. */
    ghost predicate Valid()
      reads this
    {
      Sound() && removedIds <= Ids(data) && (iterationDepth == 0 ==> removedIds == {})
    }

    ghost function Live(): set<KeyType>
      reads this
    {
      Ids(data) - removedIds
    }

    constructor (owns: bool)
      ensures Valid() && this.owns == owns && data == [] && nextId == 1 && iterationDepth == 0 && added == multiset{}
    {
      this.owns := owns;
      data, removedIds, iterationDepth, nextId := [], {}, 0, 1;
      added, released, track := multiset{}, multiset{}, Track([], map[], map[], 0);
    }

    /** The hash table puts the item anywhere. */
    method AddWithID(pointer: Pointer, id: KeyType)
      requires Valid() && iterationDepth == 0 && id !in Ids(data)
      modifies this`data, this`added
      ensures Valid() && Live() == old(Live()) + {id} && added == old(added) + multiset{pointer}
      ensures exists i :: 0 <= i <= |old(data)| && data == With(old(data), i, Item(id, pointer))
    {
      var i: nat :| i <= |data|;
      IdsWith(data, i, Item(id, pointer));
      PointersWith(data, i, Item(id, pointer));
      data := With(data, i, Item(id, pointer));
      added := added + multiset{pointer};
    }

    method Add(pointer: Pointer) returns (id: KeyType)
      requires Valid() && iterationDepth == 0 && nextId !in Ids(data) && nextId < MAX_KEY
      modifies this`data, this`added, this`nextId
      ensures id == old(nextId) && nextId == id + 1
      ensures Valid() && Live() == old(Live()) + {id} && added == old(added) + multiset{pointer}
      ensures exists i :: 0 <= i <= |old(data)| && data == With(old(data), i, Item(id, pointer))
    {
      id := nextId;
      AddWithID(pointer, id);
      nextId := nextId + 1;
    }

    method Find(id: KeyType) returns (i: nat)
      ensures i <= |data| && (i < |data| <==> id in Ids(data)) && (i < |data| ==> data[i].id == id)
    {
      i := IndexOf(data, id, |data|);
      IndexOfSpec(data, id, |data|);
    }

    /** At once if there are no iterators, and otherwise when the last of them goes. */
    method Remove(id: KeyType)
      requires Sound()
      modifies this`data, this`released, this`removedIds, this`track
      ensures Sound()
      ensures id !in old(Ids(data)) ==> unchanged(this)
      ensures id in old(Ids(data)) && iterationDepth > 0 ==>
                && data == old(data) && released == old(released) && removedIds == old(removedIds) + {id}
                && track == old(track).(history := old(track).history + [Removed(id)])
      ensures id in old(Ids(data)) && iterationDepth == 0 ==>
                && removedIds == old(removedIds) && track == old(track) && Ids(data) == old(Ids(data)) - {id}
                && exists i :: 0 <= i < |old(data)| && old(data)[i].id == id && data == Without(old(data), i)
      ensures old(Valid()) ==> Valid() && Live() == old(Live()) - {id}
    {
      var i := Find(id);
      if i == |data| {
        return;
      }
      if iterationDepth == 0 {
        Erase(i);
      } else {
        TrackRemoval(data, removedIds, track, id);
        removedIds := removedIds + {id};
        track := track.(history := track.history + [Removed(id)]);
      }
    }

    method Erase(i: nat)
      requires Sound() && iterationDepth == 0 && i < |data|
      modifies this`data, this`released
      ensures Sound() && data == Without(old(data), i) && Ids(data) == old(Ids(data)) - {old(data)[i].id}
    {
      IdsWithout(data, i);
      PointersWithout(data, i);
      released := if owns then released + multiset{data[i].pointer} else released;
      data := Without(data, i);
    }

    /** One iterator more; if it is the only one, the history begins here. */
    method Enter()
      requires Valid()
      modifies this`iterationDepth, this`track
      ensures Valid() && old(track.next) !in old(track.passes)
      ensures track.passes == old(track.passes)[old(track.next) := 0]
    {
      if iterationDepth == 0 {
        assert track.passes == map[];
        track := Track([], map[], map[], track.next);
        TrackNothing(data, track.next);
      }
      TrackStart(data, removedIds, track);
      track := WithStart(track);
      iterationDepth := iterationDepth + 1;
    }

    /** An item that is to be removed can still be looked up. */
    method Lookup(id: KeyType) returns (r: Option<Pointer>)
      requires Sound()
      ensures r.Some? <==> id in Ids(data)
      ensures r.Some? ==> exists i :: 0 <= i < |data| && data[i] == Item(id, r.value)
    {
      var i := Find(id);
      if i < |data| {
        r := Some(data[i].pointer);
        assert data[i] == Item(id, r.value);
      } else {
        r := None;
      }
    }

    method Size() returns (n: int)
      requires Valid()
      ensures n == |Live()|
    {
      n := |data| - |removedIds|;
      CountIds(data, |data|);
      CountDifference(Ids(data), removedIds);
    }

    method RemovePending(id: KeyType, ghost before: seq<Item>, ghost left: set<KeyType>)
      requires Sound() && iterationDepth == 0 && id in left && Compacting(before, data, removedIds, left)
      modifies this`data, this`released, this`removedIds, this`track
      ensures Sound() && track == old(track) && removedIds == old(removedIds)
      ensures Compacting(before, data, removedIds, left - {id})
    {
      Remove(id);
      CompactingOn(before, old(data), data, removedIds, left, id);
    }

    /** Remove what is pending, once there are no iterators. */
    method Compact()
      requires Sound() && iterationDepth == 0 && removedIds <= Ids(data)
      modifies this`data, this`released, this`removedIds, this`track
      ensures Valid() && removedIds == {} && track == old(track)
      ensures Ids(data) == old(Ids(data) - removedIds) && data == Left(old(data), old(removedIds))
    {
      var left := removedIds;
      while left != {}
        invariant Sound() && track == old(track) && removedIds == old(removedIds)
        invariant Compacting(old(data), data, removedIds, left)
        decreases left
      {
        var id :| id in left;
        RemovePending(id, old(data), left);
        left := left - {id};
      }
      Compacted(old(data), data, removedIds);
      removedIds := {};
    }

    /** The destructor releases whatever is there, pending or not. */
    method Destroy()
      requires Sound()
      modifies this`data, this`released
      ensures data == [] && released == if owns then added else multiset{}
    {
      if owns {
        released := released + Pointers(data);
      }
      data := [];
    }
  }

  class Iterator {
    const map': IDMap
    /** iter_, as a place in the order of the hash table. */
    var position: nat
    ghost const number: nat
    /** Where it has stood, and stands. */
    ghost var stops: seq<Stop>

    /** The iterator has come by all items before its position, and by `more` items from there on. */
    ghost predicate At(more: nat)
      reads this, map'
    {
      && map'.Valid() && number in map'.track.passes
      && map'.track.passes[number] == position + more <= |map'.data|
    }

    /** At the end, or standing at an item, which it has come by. */
    ghost predicate Valid()
      reads this, map'
    {
      && At(if position < |map'.data| then 1 else 0)
      && StopsOk(map'.data, stops) && stops != []
      && stops[|stops| - 1].position == position && stops[|stops| - 1].removed <= map'.removedIds
    }

    /** Not at an item that is to be removed. */
    ghost predicate Stops()
      reads this, map'
    {
      position == |map'.data| || (position < |map'.data| && map'.data[position].id !in map'.removedIds)
    }

    constructor (map': IDMap)
      requires map'.Valid()
      modifies map'`iterationDepth, map'`track
      ensures Valid() && this.map' == map' && number !in old(map'.track.passes) && Stops()
      ensures forall p :: 0 <= p < position ==> map'.data[p].id in map'.removedIds
      ensures stops == [Stop(position, map'.removedIds)]
      ensures map'.track.passes == old(map'.track.passes)[number := map'.track.passes[number]]
    {
      this.map' := map';
      position := 0;
      number := map'.track.next;
      stops := [];
      new;
      map'.Enter();
      SkipRemovedEntries();
      Stand();
    }

    /** The iterator stays where it is now, and has come by the item there. */
    ghost method Stand()
      requires At(0) && Stops() && StopsOk(map'.data, stops) && From(stops, |stops|) <= position
      requires forall p :: From(stops, |stops|) <= p < position ==> map'.data[p].id in map'.removedIds
      requires stops != [] ==> stops[|stops| - 1].removed <= map'.removedIds
      modifies this`stops, map'`track
      ensures Valid() && stops == old(stops) + [Stop(position, map'.removedIds)]
      ensures map'.track.passes == old(map'.track.passes)[number := map'.track.passes[number]]
    {
      StopAdded(map'.data, stops, Stop(position, map'.removedIds));
      stops := stops + [Stop(position, map'.removedIds)];
      if position < |map'.data| {
        ComeBy();
      }
    }

    /** Come by the next item. */
    ghost method ComeBy()
      requires At(0) && position < |map'.data|
      modifies map'`track
      ensures At(1) && map'.track.passes == old(map'.track.passes)[number := position + 1]
    {
      assert map'.track.passes.Keys != {};
      TrackPass(map'.data, map'.removedIds, map'.track, number);
      map'.track := WithPass(map'.data, map'.removedIds, map'.track, number);
    }

    method SkipRemovedEntries()
      requires At(0)
      modifies this`position, map'`track
      ensures At(0) && position >= old(position) && Stops()
      ensures forall p :: old(position) <= p < position ==> map'.data[p].id in map'.removedIds
      ensures map'.track.passes == old(map'.track.passes)[number := map'.track.passes[number]]
    {
      while position < |map'.data| && map'.data[position].id in map'.removedIds
        invariant At(0) && position >= old(position)
        invariant forall p :: old(position) <= p < position && p < |map'.data| ==> map'.data[p].id in map'.removedIds
        invariant map'.track.passes == old(map'.track.passes)[number := position]
        decreases |map'.data| - position
      {
        ComeBy();
        position := position + 1;
      }
    }

    method IsAtEnd() returns (end: bool)
      ensures end <==> position == |map'.data|
    {
      end := position == |map'.data|;
    }

    /** What is current stays so when it is removed. */
    method GetCurrent() returns (id: KeyType, pointer: Pointer)
      requires position < |map'.data|
      ensures Item(id, pointer) == map'.data[position]
    {
      id, pointer := map'.data[position].id, map'.data[position].pointer;
    }

    method Advance()
      requires Valid() && position < |map'.data|
      modifies this`position, this`stops, map'`track
      ensures Valid() && position > old(position) && Stops()
      ensures stops == old(stops) + [Stop(position, map'.removedIds)]
      ensures forall p :: old(position) < p < position ==> map'.data[p].id in map'.removedIds
      ensures map'.track.passes == old(map'.track.passes)[number := map'.track.passes[number]]
    {
      position := position + 1;
      SkipRemovedEntries();
      Stand();
    }

    /**
     A loop that has come to its end was shown, in the order of the table, exactly the ids whose removal had not been
     asked for when they were reached.
     */
    lemma LoopShows()
      requires Valid() && position == |map'.data|
      ensures Shown(map'.data, stops, |stops|) == LiveWhenReached(map'.data, stops, |map'.data|)
      ensures forall p :: 0 <= p < |map'.data| ==>
                stops[0].removed <= RemovedWhenReached(stops, 0, p) <= map'.removedIds
    {
      LoopShowsLive(map'.data, stops);
    }

    /** The destructor of the last iterator removes what is pending. */
    method Destroy()
      requires Valid()
      modifies map'
      ensures map'.Valid() && map'.track.passes == old(map'.track.passes) - {number}
      ensures map'.Live() == old(map'.Live()) && map'.added == old(map'.added)
      ensures map'.track.passes == map[] ==> map'.removedIds == {} && Ids(map'.data) == old(map'.Live())
      ensures map'.track.passes == map[] ==> map'.data == Left(old(map'.data), old(map'.removedIds))
      ensures map'.track.passes != map[] ==> map'.data == old(map'.data) && map'.removedIds == old(map'.removedIds)
    {
      assert map'.track.passes.Keys != {};
      TrackLeave(map'.data, map'.removedIds, map'.track, number);
      map'.track := map'.track.(passes := map'.track.passes - {number});
      map'.iterationDepth := map'.iterationDepth - 1;
      if map'.iterationDepth == 0 {
        map'.Compact();
      }
    }

    /**
     What an iterator has come by: each item exactly once, visited exactly if its removal had not been
     asked for by then; so only what was live when the iterator was made is visited.
     */
    lemma VisitsEachOnce(p: nat) returns (s: nat, k: nat)
      requires Valid() && p < |map'.data| && p <= position
      ensures s < k < |map'.track.history| && map'.track.history[s] == Started(number)
      ensures map'.track.history[k]
           == Passed(number, map'.data[p].id, map'.data[p].id !in RemovedTo(map'.track.history, k))
      ensures map'.data[p].id in RemovedTo(map'.track.history, s) ==> !map'.track.history[k].visited
      ensures forall j :: (0 <= j < |map'.track.history| && j != k && map'.track.history[j].Passed?
                           && map'.track.history[j].walker == number) ==>
                            map'.track.history[j].id != map'.data[p].id
    {
      assert map'.track.passes.Keys != {};
      assert IteratorOk(map'.data, map'.track, number);
      s := map'.track.starts[number];
      k := EachOnce(map'.data, map'.track.history, number, s, p);
    }
  }

  lemma CountDifference(a: set<KeyType>, b: set<KeyType>)
    requires b <= a
    ensures |a - b| == |a| - |b|
  {
    assert a == (a - b) + b;
  }
}
