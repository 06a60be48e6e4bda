/** The in-memory index of stored events, one operation at a time (src/store/index.rs).
    `ConcurrentIndex` models the same operations interleaved. */
module EventIndexes {
  import opened Events
  import opened IndexKeys
  import opened StoreSpec
  import EventSets
  import Oldest
  import opened TombstoneQueue

  // ---------------------------------------------------------------- buckets

  type Buckets = map<BucketKey, seq<Event>>

  function Bucket(b: Buckets, k: BucketKey): seq<Event> {
    if k in b then b[k] else []
  }

  ghost predicate Tidy(cat: Catalogue, b: Buckets) {
    forall k :: EventSets.Sorted(Bucket(b, k)) && forall x :: x in Bucket(b, k) ==> Genuine(cat, x)
  }

  ghost predicate Stored(byId: map<Id, Event>, x: Event) {
    x.id in byId && byId[x.id] == x
  }

  /** Every bucket is sorted and holds exactly the stored events that belong in it. */
  ghost predicate Filed(byId: map<Id, Event>, b: Buckets) {
    forall k ::
      && EventSets.Sorted(Bucket(b, k))
      && forall x :: x in Bucket(b, k) <==> Stored(byId, x) && k in KeysOf(x)
  }

  ghost predicate OneEventPerId(cat: Catalogue, byId: map<Id, Event>) {
    forall id :: id in byId ==> byId[id].id == id && Genuine(cat, byId[id])
  }

  lemma FiledIsTidy(cat: Catalogue, byId: map<Id, Event>, b: Buckets)
    requires Filed(byId, b) && OneEventPerId(cat, byId)
    ensures Tidy(cat, b)
  {
    forall k ensures EventSets.Sorted(Bucket(b, k)) && forall x :: x in Bucket(b, k) ==> Genuine(cat, x) {
      forall x | x in Bucket(b, k) ensures Genuine(cat, x) {
        assert Stored(byId, x);
      }
    }
  }

  /** `b` is `start` with `e` added to every bucket it belongs in, and still sorted. */
  ghost predicate AddedTo(start: Buckets, b: Buckets, e: Event) {
    && (forall k :: EventSets.Sorted(Bucket(b, k)))
    && (forall k, x :: x in Bucket(b, k) <==> x in Bucket(start, k) || (x == e && k in KeysOf(e)))
  }

  /** `b` is `start` with `e` taken out of every bucket it belongs in, and still sorted. */
  ghost predicate TakenFrom(start: Buckets, b: Buckets, e: Event) {
    && (forall k :: EventSets.Sorted(Bucket(b, k)))
    && (forall k, x :: x in Bucket(b, k) <==> x in Bucket(start, k) && !(x == e && k in KeysOf(e)))
  }

  /** The `write().insert` of every secondary index, creating buckets on demand. */
  method AddToAll(ghost cat: Catalogue, start: Buckets, e: Event) returns (b: Buckets)
    requires Tidy(cat, start) && Genuine(cat, e)
    ensures AddedTo(start, b, e)
  {
    hide KeysOf, EventSets.Sorted, EventSets.Insert, EventSets.Remove;
    b := start;
    var keys := KeysOf(e);
    for n := 0 to |keys|
      invariant forall k :: EventSets.Sorted(Bucket(b, k))
      invariant forall k, x :: x in Bucket(b, k) <==> x in Bucket(start, k) || (x == e && k in keys[..n])
    {
      var key := keys[n];
      ghost var b0 := b;
      assert EventSets.Agrees(Bucket(b, key), e) by {
        forall x | x in Bucket(b, key) && x.id == e.id ensures x == e {
          assert x in Bucket(start, key) || x == e;
        }
      }
      EventSets.InsertKeepsOrder(Bucket(b, key), e);
      b := b[key := EventSets.Insert(Bucket(b, key), e)];
      assert keys[..n + 1] == keys[..n] + [key];
      assert forall k :: k != key ==> Bucket(b, k) == Bucket(b0, k);
    }
    assert keys[..|keys|] == keys;
  }

  /** The `write().remove` of every secondary index; emptied buckets stay. */
  method RemoveFromAll(ghost cat: Catalogue, start: Buckets, e: Event) returns (b: Buckets)
    requires Tidy(cat, start) && Genuine(cat, e)
    ensures TakenFrom(start, b, e)
  {
    hide KeysOf, EventSets.Sorted, EventSets.Insert, EventSets.Remove;
    b := start;
    var keys := KeysOf(e);
    for n := 0 to |keys|
      invariant forall k :: EventSets.Sorted(Bucket(b, k))
      invariant forall k, x :: x in Bucket(b, k) <==> x in Bucket(start, k) && !(x == e && k in keys[..n])
    {
      var key := keys[n];
      ghost var b0 := b;
      if key in b {
        assert EventSets.Agrees(Bucket(b, key), e) by {
          forall x | x in Bucket(b, key) && x.id == e.id ensures x == e {
            assert x in Bucket(start, key);
          }
        }
        EventSets.RemoveKeepsOrder(Bucket(b, key), e);
        b := b[key := EventSets.Remove(b[key], e)];
      }
      assert keys[..n + 1] == keys[..n] + [key];
      assert forall k :: k != key ==> Bucket(b, k) == Bucket(b0, k);
    }
    assert keys[..|keys|] == keys;
  }

  // ---------------------------------------------------------------- byte count

  ghost function ByteSum(m: map<Id, Event>): nat
    decreases |m|
  {
    if m == map[] then 0
    else
      var id :| id in m;
      |m[id].raw| + ByteSum(m - {id})
  }

  lemma {:induction false} ByteSumWithout(m: map<Id, Event>, id: Id)
    requires id in m
    ensures ByteSum(m) == |m[id].raw| + ByteSum(m - {id})
    decreases |m|
  {
    var picked :| picked in m && ByteSum(m) == |m[picked].raw| + ByteSum(m - {picked});
    if picked != id {
      ByteSumWithout(m - {picked}, id);
      ByteSumWithout(m - {id}, picked);
      assert (m - {picked}) - {id} == (m - {id}) - {picked};
    }
  }

  // ---------------------------------------------------------------- view

  /** The slots and the primary map hold the same events. */
  ghost predicate Represents(byId: map<Id, Event>, slots: map<Slot, Event>) {
    && (forall sl :: sl in slots ==> SlotOf(slots[sl]) == sl && Stored(byId, slots[sl]))
    && (forall id :: id in byId ==> SlotOf(byId[id]) in slots && slots[SlotOf(byId[id])] == byId[id])
  }

  /** Every stored replaceable event is the one its key maps to; a key may outlive its
      event, but never names an event of another key. */
  ghost predicate KeysPoint(cat: Catalogue, byId: map<Id, Event>, byReplaceable: map<ReplacementKey, Id>) {
    && (forall id :: id in byId && IsReplaceable(byId[id]) ==>
          KeyOf(byId[id]) in byReplaceable && byReplaceable[KeyOf(byId[id])] == id)
    && (forall key :: key in byReplaceable ==>
          var e := cat(byReplaceable[key]); IsReplaceable(e) && KeyOf(e) == key && e.id == byReplaceable[key])
  }

  lemma RepresentsWithout(cat: Catalogue, byId: map<Id, Event>, slots: map<Slot, Event>, id: Id)
    requires OneEventPerId(cat, byId) && Represents(byId, slots)
    ensures Represents(byId - {id}, Without(slots, id))
  {
  }

  lemma HolderOfKey(cat: Catalogue, byId: map<Id, Event>, slots: map<Slot, Event>,
                    byReplaceable: map<ReplacementKey, Id>, e: Event)
    requires OneEventPerId(cat, byId) && Represents(byId, slots) && KeysPoint(cat, byId, byReplaceable)
    requires IsReplaceable(e)
    ensures var key := KeyOf(e);
            if key in byReplaceable && byReplaceable[key] in byId
            then SlotOf(e) in slots && slots[SlotOf(e)] == byId[byReplaceable[key]]
            else SlotOf(e) !in slots
  {
    var key := KeyOf(e);
    if key in byReplaceable && byReplaceable[key] in byId {
      assert byId[byReplaceable[key]] == cat(byReplaceable[key]);
    }
    if SlotOf(e) in slots {
      var h := slots[SlotOf(e)];
      assert Stored(byId, h) && IsReplaceable(h) && KeyOf(h) == key;
    }
  }

  // ---------------------------------------------------------------- the index

  class EventIndex {
    ghost const cat: Catalogue
    ghost var view: Store

    var byId: map<Id, Event>
    var buckets: Buckets
    var byReplaceable: map<ReplacementKey, Id>
    const tombstones: Tombstones
    var memoryBytes: int
    var eventCount: int

    /** Primary map, secondary indexes and counters agree. */
    ghost predicate Consistent()
      reads this
    {
      && OneEventPerId(cat, byId)
      && Filed(byId, buckets)
      && memoryBytes == ByteSum(byId)
      && eventCount == |byId|
    }

    /** ... and so do the replacement keys, the tombstones and the view. */
    ghost predicate Valid()
      reads this, tombstones
    {
      && Consistent()
      && KeysPoint(cat, byId, byReplaceable)
      && Represents(byId, view.slots)
      && tombstones.Valid()
      && view.tombs == tombstones.order
      && Wf(cat, view)
    }

    lemma ValidIsConsistent()
      requires Valid()
      ensures OneEventPerId(cat, byId) && memoryBytes == ByteSum(byId)
    {
      hide Filed, ByteSum, KeysPoint, Represents, Wf;
    }

    constructor (ghost cat: Catalogue)
      ensures Valid() && view == EMPTY && this.cat == cat && fresh(tombstones)
    {
      this.cat := cat;
      view := EMPTY;
      byId, buckets, byReplaceable := map[], map[], map[];
      memoryBytes, eventCount := 0, 0;
      tombstones := new Tombstones();
    }

    /** Take a stored event out of the primary map, the counters and the secondary indexes. */
    method Unfile(e: Event)
      requires Consistent() && e.id in byId && byId[e.id] == e
      modifies this`byId, this`buckets, this`memoryBytes, this`eventCount
      ensures Consistent() && byId == old(byId) - {e.id}
    {
      hide KeyOf, Filed, OneEventPerId, Tidy, ByteSum, TakenFrom;
      FiledIsTidy(cat, byId, buckets);
      TakenOut(cat, byId, e.id);
      byId := byId - {e.id};
      memoryBytes := memoryBytes - |e.raw|;
      eventCount := eventCount - 1;
      buckets := RemoveFromAll(cat, buckets, e);
      FiledWithout(cat, old(byId), old(buckets), buckets, e);
    }

    /** Remove an event from everything but the tombstones. The replacement key is dropped
        only on behalf of a deletion request. */
    method InternalRemove(id: Id, skipReplaceable: bool) returns (removed: Option<Event>)
      requires Consistent()
      modifies this`byId, this`buckets, this`byReplaceable, this`memoryBytes, this`eventCount
      ensures Consistent()
      ensures removed == if id in old(byId) then Some(old(byId)[id]) else None
      ensures byId == old(byId) - {id}
      ensures byReplaceable ==
              if removed.Some? && !skipReplaceable && IsReplaceable(removed.value)
              then old(byReplaceable) - {KeyOf(removed.value)} else old(byReplaceable)
    {
      hide KeyOf, IsReplaceable, Filed, OneEventPerId, ByteSum;
      if id !in byId {
        assert byId - {id} == byId;
        return None;
      }
      var e := byId[id];
      TakenOut(cat, byId, id);
      Unfile(e);
      if !skipReplaceable && IsReplaceable(e) {
        byReplaceable := byReplaceable - {KeyOf(e)};
      }
      removed := Some(e);
    }

    /** The accepting half of `insert`: primary map, counters, secondary indexes. Run alone,
        the two re-checks for a lost race (lines 305 and 387-398) cannot fail. */
    method Store(e: Event)
      requires Consistent() && Genuine(cat, e) && e.id !in byId
      modifies this`byId, this`buckets, this`memoryBytes, this`eventCount
      ensures Consistent()
      ensures byId == old(byId)[e.id := e]
    {
      hide Filed, OneEventPerId, Tidy, ByteSum, AddedTo;
      FiledIsTidy(cat, byId, buckets);
      PutIn(cat, byId, e);
      byId := byId[e.id := e];
      memoryBytes := memoryBytes + |e.raw|;
      eventCount := eventCount + 1;
      buckets := AddToAll(cat, buckets, e);
      FiledWith(old(byId), old(buckets), buckets, e);
    }

    /** The replaceable half of `insert` (lines 262-293): take over the key if the incoming
        version ranks before the stored one, and remove the version it displaces. */
    method Claim(e: Event) returns (wins: bool, replaced: Option<Event>)
      requires Valid() && Genuine(cat, e) && IsReplaceable(e)
      modifies this`byId, this`buckets, this`byReplaceable, this`memoryBytes, this`eventCount
      ensures Consistent()
      ensures wins <==> (SlotOf(e) in view.slots ==> Before(e, view.slots[SlotOf(e)]))
      ensures replaced == if wins then Holder(view, e) else None
      ensures byId == Vacated(old(byId), replaced)
      ensures byReplaceable == if wins then old(byReplaceable)[KeyOf(e) := e.id] else old(byReplaceable)
    {
      hide KeyOf, IsReplaceable, Filed, OneEventPerId, KeysPoint, Represents, ByteSum, Wf, Before;
      HolderOfKey(cat, byId, view.slots, byReplaceable, e);
      var key := KeyOf(e);
      replaced := None;
      if key in byReplaceable {
        var oldId := byReplaceable[key];
        wins := oldId in byId ==> Before(e, byId[oldId]);
        if !wins {
          return;
        }
        byReplaceable := byReplaceable[key := e.id];
        if oldId in byId { TakenOut(cat, byId, oldId); } else { assert byId - {oldId} == byId; }
        replaced := InternalRemove(oldId, true);
      } else {
        wins := true;
        byReplaceable := byReplaceable[key := e.id];
      }
    }

    method Insert(e: Event) returns (outcome: Outcome)
      requires Valid() && Genuine(cat, e)
      modifies this
      ensures Valid()
      ensures view == StoreSpec.Insert(old(view), e)
      ensures outcome == InsertOutcome(old(view), e)
    {
      hide KeyOf, IsReplaceable, Filed, OneEventPerId, KeysPoint, Represents, ByteSum, Wf, Before;
      var buried := tombstones.Contains(e.id);
      if buried {
        return Deleted;
      }
      var replaced: Option<Event> := None;
      if IsReplaceable(e) {
        var wins;
        wins, replaced := Claim(e);
        if !wins {
          return LostRace;
        }
      }
      if e.id in byId {
        byId := byId[e.id := e];
        DuplicateChangesNothing(cat, old(byId), view, replaced, e);
        return Duplicate;
      }
      FreshChangesItsSlot(cat, old(byId), view, old(byReplaceable), e);
      Store(e);
      view := StoreSpec.Insert(view, e);
      ApplyKeepsWf(cat, old(view), OpInsert(e));
      outcome := Inserted(replaced);
    }

    /** Eviction: the event leaves every index, its replacement key stays behind. */
    method Remove(id: Id) returns (removed: Option<Event>)
      requires Valid()
      modifies this
      ensures Valid()
      ensures view == StoreSpec.Remove(old(view), id)
      ensures removed == if id in old(byId) then Some(old(byId)[id]) else None
      ensures byId == old(byId) - {id}
      ensures byReplaceable == old(byReplaceable)
    {
      hide KeyOf, IsReplaceable, Filed, OneEventPerId, KeysPoint, Represents, ByteSum, Wf, StoreSpec.Without;
      KeysPointWithout(cat, byId, byReplaceable, id);
      removed := InternalRemove(id, true);
      RepresentsWithout(cat, old(byId), view.slots, id);
      view := StoreSpec.Remove(view, id);
      ApplyKeepsWf(cat, old(view), OpRemove(id));
    }

    /** NIP-09 deletion by id. The tombstone is recorded whether or not the event is there. */
    method DeleteById(id: Id) returns (removed: Option<Event>)
      requires Valid()
      modifies this, tombstones
      ensures Valid()
      ensures view == StoreSpec.Delete(old(view), id)
      ensures removed == if id in old(byId) then Some(old(byId)[id]) else None
      ensures byId == old(byId) - {id}
      ensures byReplaceable == if removed.Some? && IsReplaceable(removed.value)
                               then old(byReplaceable) - {KeyOf(removed.value)} else old(byReplaceable)
    {
      hide KeyOf, IsReplaceable, Filed, OneEventPerId, KeysPoint, Represents, ByteSum, Wf, StoreSpec.Without,
        StoreSpec.Bury;
      KeysPointWithout(cat, byId, byReplaceable, id);
      removed := InternalRemove(id, false);
      RepresentsWithout(cat, old(byId), view.slots, id);
      tombstones.Insert(id);
      view := StoreSpec.Delete(view, id);
      ApplyKeepsWf(cat, old(view), OpDelete(id));
    }

    /** WAL replay of a tombstone: re-arm it, then drop the event if the snapshot restored it. */
    method ReplayTombstone(id: Id)
      requires Valid()
      modifies this, tombstones
      ensures Valid()
      ensures view == StoreSpec.Delete(old(view), id)
      ensures byId == old(byId) - {id}
    {
      hide KeyOf, IsReplaceable, Filed, OneEventPerId, KeysPoint, Represents, ByteSum, Wf, StoreSpec.Without,
        StoreSpec.Bury;
      KeysPointWithout(cat, byId, byReplaceable, id);
      tombstones.Insert(id);
      var removed := InternalRemove(id, true);
      RepresentsWithout(cat, old(byId), view.slots, id);
      view := StoreSpec.Delete(view, id);
      ApplyKeepsWf(cat, old(view), OpDelete(id));
    }

    /** The stored versions under a replacement key that are not newer than `until`:
        at most one, and exactly the events a deletion by coordinate must reach. */
    method KeyTargets(key: ReplacementKey, until: nat) returns (targets: seq<Id>)
      requires Valid()
      ensures |targets| <= 1
      ensures forall id :: id in targets <==>
                id in byId && IsReplaceable(byId[id]) && KeyOf(byId[id]) == key && byId[id].createdAt <= until
    {
      targets := [];
      if key in byReplaceable {
        var id := byReplaceable[key];
        if id in byId {
          assert byId[id] == cat(id);
          if byId[id].createdAt <= until {
            targets := [id];
          }
        }
      }
    }

    /** The `count` oldest stored events, oldest first; nothing left out is older than
        anything returned. */
    method GetOldest(count: nat) returns (oldest: seq<Event>)
      requires Valid()
      requires count >= 1 || byId == map[]
      ensures forall x :: x in oldest ==> Stored(byId, x)
      ensures forall i, j :: 0 <= i < j < |oldest| ==> Before(oldest[j], oldest[i])
      ensures |oldest| == if count <= |byId| then count else |byId|
      ensures forall x, y :: Stored(byId, x) && x !in oldest && y in oldest ==> y.createdAt <= x.createdAt
    {
      var b := buckets;
      var shards := seq(Oldest.OLDEST_SHARDS, i requires 0 <= i < Oldest.OLDEST_SHARDS => Bucket(b, ByOldest(i)));
      ShardsHoldEverything(cat, byId, b, shards);
      oldest := Oldest.GetOldest(cat, shards, count);
    }
  }

  lemma ShardsHoldEverything(cat: Catalogue, byId: map<Id, Event>, b: Buckets, shards: seq<seq<Event>>)
    requires OneEventPerId(cat, byId) && Filed(byId, b)
    requires |shards| == Oldest.OLDEST_SHARDS
    requires forall i :: 0 <= i < |shards| ==> shards[i] == Bucket(b, ByOldest(i))
    ensures Oldest.ValidShards(cat, shards)
    ensures forall x :: x in Oldest.All(shards) <==> Stored(byId, x)
    ensures |Oldest.All(shards)| == |byId|
  {
    forall i, x | 0 <= i < |shards|
      ensures x in shards[i] <==> Stored(byId, x) && i == Oldest.ShardOf(x.id)
    {
      assert x in Bucket(b, ByOldest(i)) <==> Stored(byId, x) && ByOldest(i) in KeysOf(x);
      KeysAreBelonging(x, ByOldest(i));
    }
    forall x ensures x in Oldest.All(shards) <==> Stored(byId, x) {
      if Stored(byId, x) {
        var i := Oldest.ShardOf(x.id);
        assert x in shards[i];
        var j :| 0 <= j < |shards[i]| && shards[i][j] == x;
      }
      if x in Oldest.All(shards) {
        var i, j :| 0 <= i < |shards| && 0 <= j < |shards[i]| && shards[i][j] == x;
        assert x in shards[i];
      }
    }
    forall a, c, d, f | 0 <= a < |shards| && 0 <= c < |shards[a]| && 0 <= d < |shards| && 0 <= f < |shards[d]|
      ensures shards[a][c] == shards[d][f] ==> a == d && c == f
    {
      assert shards[a][c] in shards[a] && shards[d][f] in shards[d];
      EventSets.SortedHasNoRepeats(shards[a]);
    }
    forall a, c | 0 <= a < |shards| && 0 <= c < |shards[a]| ensures Genuine(cat, shards[a][c]) {
      assert shards[a][c] in shards[a];
    }
    AsManyEventsAsIds(cat, byId, Oldest.All(shards));
  }

  lemma {:induction false} AsManyEventsAsIds(cat: Catalogue, byId: map<Id, Event>, all: set<Event>)
    requires OneEventPerId(cat, byId)
    requires forall x :: x in all <==> Stored(byId, x)
    ensures |all| == |byId|
    decreases |byId|
  {
    if byId == map[] {
      assert all == {};
    } else {
      var id :| id in byId;
      var e := byId[id];
      assert Stored(byId, e);
      AsManyEventsAsIds(cat, byId - {id}, all - {e});
      assert |byId - {id}| == |byId| - 1;
    }
  }

  function Holder(s: StoreSpec.Store, e: Event): Option<Event> {
    if SlotOf(e) in s.slots then Some(s.slots[SlotOf(e)]) else None
  }

  function Vacated(byId: map<Id, Event>, displaced: Option<Event>): map<Id, Event> {
    if displaced.Some? then byId - {displaced.value.id} else byId
  }

  lemma DuplicateChangesNothing(cat: Catalogue, byId: map<Id, Event>, s: StoreSpec.Store, replaced: Option<Event>,
                                e: Event)
    requires OneEventPerId(cat, byId) && Represents(byId, s.slots) && Genuine(cat, e)
    requires IsReplaceable(e) ==>
               (SlotOf(e) in s.slots ==> Before(e, s.slots[SlotOf(e)])) && replaced == Holder(s, e)
    requires !IsReplaceable(e) ==> replaced == None
    requires e.id in Vacated(byId, replaced)
    ensures !IsReplaceable(e) && !Accepts(s, e)
    ensures byId[e.id := e] == byId
  {
    assert byId[e.id] == e && s.slots[SlotOf(e)] == e;
    BeforeIrreflexive(e);
  }

  lemma FreshChangesItsSlot(cat: Catalogue, byId: map<Id, Event>, s: StoreSpec.Store,
                            byReplaceable: map<ReplacementKey, Id>, e: Event)
    requires OneEventPerId(cat, byId) && Represents(byId, s.slots) && KeysPoint(cat, byId, byReplaceable)
    requires Wf(cat, s) && Genuine(cat, e)
    requires e.id !in s.tombs
    requires IsReplaceable(e) ==> (SlotOf(e) in s.slots ==> Before(e, s.slots[SlotOf(e)]))
    requires !IsReplaceable(e) ==> e.id !in byId
    ensures var byId' := Vacated(byId, if IsReplaceable(e) then Holder(s, e) else None)[e.id := e];
            && Accepts(s, e)
            && Represents(byId', StoreSpec.Insert(s, e).slots)
            && KeysPoint(cat, byId', if IsReplaceable(e) then byReplaceable[KeyOf(e) := e.id] else byReplaceable)
            && (!IsReplaceable(e) ==> Holder(s, e).None?)
  {
    hide KeyOf, IsReplaceable, Before;
    if !IsReplaceable(e) { NotHeldYet(cat, byId, s.slots, e); }
    assert Accepts(s, e);
    var byId0 := Vacated(byId, if IsReplaceable(e) then Holder(s, e) else None);
    var byId' := byId0[e.id := e];
    var slots' := StoreSpec.Insert(s, e).slots;
    forall id | id in byId' ensures SlotOf(byId'[id]) in slots' && slots'[SlotOf(byId'[id])] == byId'[id] {
      if id != e.id { assert id in byId; }
    }
    forall sl | sl in slots' ensures SlotOf(slots'[sl]) == sl && Stored(byId', slots'[sl]) {
      if sl != SlotOf(e) { assert sl in s.slots; }
    }
  }

  lemma TakenOut(cat: Catalogue, byId: map<Id, Event>, id: Id)
    requires OneEventPerId(cat, byId) && id in byId
    ensures OneEventPerId(cat, byId - {id})
    ensures Genuine(cat, byId[id]) && byId[id].id == id
    ensures ByteSum(byId - {id}) == ByteSum(byId) - |byId[id].raw| && |byId - {id}| == |byId| - 1
  {
    hide ByteSum;
    ByteSumWithout(byId, id);
  }

  lemma PutIn(cat: Catalogue, byId: map<Id, Event>, e: Event)
    requires OneEventPerId(cat, byId) && Genuine(cat, e) && e.id !in byId
    ensures OneEventPerId(cat, byId[e.id := e])
    ensures ByteSum(byId[e.id := e]) == ByteSum(byId) + |e.raw| && |byId[e.id := e]| == |byId| + 1
  {
    hide ByteSum;
    var more := byId[e.id := e];
    assert more - {e.id} == byId;
    ByteSumWithout(more, e.id);
  }

  lemma KeysPointWithout(cat: Catalogue, byId: map<Id, Event>, byReplaceable: map<ReplacementKey, Id>, id: Id)
    requires OneEventPerId(cat, byId) && KeysPoint(cat, byId, byReplaceable)
    ensures KeysPoint(cat, byId - {id}, byReplaceable)
    ensures id in byId && IsReplaceable(byId[id]) ==> KeysPoint(cat, byId - {id}, byReplaceable - {KeyOf(byId[id])})
  {
    hide KeyOf, IsReplaceable;
  }

  lemma FiledWithout(cat: Catalogue, byId: map<Id, Event>, b: Buckets, b': Buckets, e: Event)
    requires e.id in byId && byId[e.id] == e && Filed(byId, b) && OneEventPerId(cat, byId)
    requires TakenFrom(b, b', e)
    ensures Filed(byId - {e.id}, b')
  {
    hide KeysOf, EventSets.Sorted;
    forall k, x ensures x in Bucket(b', k) <==> Stored(byId - {e.id}, x) && k in KeysOf(x) {
      assert x in Bucket(b, k) <==> Stored(byId, x) && k in KeysOf(x);
    }
  }

  lemma FiledWith(byId: map<Id, Event>, b: Buckets, b': Buckets, e: Event)
    requires e.id !in byId && Filed(byId, b)
    requires AddedTo(b, b', e)
    ensures Filed(byId[e.id := e], b')
  {
    hide KeysOf, EventSets.Sorted;
    forall k, x ensures x in Bucket(b', k) <==> Stored(byId[e.id := e], x) && k in KeysOf(x) {
      assert x in Bucket(b, k) <==> Stored(byId, x) && k in KeysOf(x);
    }
  }

  lemma NotHeldYet(cat: Catalogue, byId: map<Id, Event>, slots: map<Slot, Event>, e: Event)
    requires OneEventPerId(cat, byId) && Represents(byId, slots)
    requires !IsReplaceable(e) && e.id !in byId
    ensures SlotOf(e) !in slots
  {
  }
}
