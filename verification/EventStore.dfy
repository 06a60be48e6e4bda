/** The event store over index and log: publishing, NIP-09 deletion, eviction and loading
    (src/store/mod.rs:298-508, 785-926). The log is kept as its list of operations; `Wal`
    turns them into bytes. */
module EventStores {
  import opened Events
  import opened StoreSpec
  import opened EventIndexes
  import opened Deletion
  import opened Loading
  import Checkpoint
  import Replays
  import Snapshots
  import EventSets
  import Wal

  datatype InsertResult = Ephemeral | Duplicate | Deleted | Kept(event: Event, replaced: Option<Event>)

  datatype DeletionOutcome = DeletionOutcome(deletedIds: seq<Id>, skippedForeign: nat, unknownCoordinates: nat)

  function Tombstones(ids: seq<Id>): seq<Op> {
    seq(|ids|, i requires 0 <= i < |ids| => OpDelete(ids[i]))
  }

  /** Exactly what a request by `author` must remove: the author's events it names by id, and
      the author's events under a coordinate it names, up to the time of the request. */
  ghost predicate Doomed(e: Event, req: DeletionRequest, author: Id, until: nat) {
    && e.pubkey == author
    && (e.id in req.ids || exists c :: c in req.coordinates && Targets(c, e, author, until))
  }

  ghost predicate Targets(c: Coordinate, e: Event, author: Id, until: nat) {
    c.pubkey == author && IsReplaceable(e) && KeyOf(e) == CoordinateKey(c) && e.createdAt <= until
  }

  /** How many coordinates name another author. */
  function ForeignCoordinates(cs: seq<Coordinate>, author: Id): nat {
    if cs == [] then 0
    else ForeignCoordinates(cs[..|cs| - 1], author) + if cs[|cs| - 1].pubkey != author then 1 else 0
  }

  ghost function OwnIds(byId: map<Id, Event>, ids: set<Id>, author: Id): set<Id> {
    set id | id in ids && id in byId && byId[id].pubkey == author
  }

  ghost function ForeignIds(byId: map<Id, Event>, ids: set<Id>, author: Id): set<Id> {
    set id | id in ids && id in byId && byId[id].pubkey != author
  }

  /** What a deletion can observe and change. */
  datatype Memory = Memory(byId: map<Id, Event>, view: Store, log: seq<Op>)

  /** Between two moments exactly the listed events were deleted, each once: gone from memory,
      buried, and logged. */
  ghost predicate Took(a: Memory, b: Memory, ids: seq<Id>) {
    && NoRepeats(ids)
    && (forall id :: id in ids ==> id in a.byId)
    && b.byId == a.byId - (set id | id in ids)
    && b.view == Run(a.view, Tombstones(ids))
    && b.log == a.log + Tombstones(ids)
  }

  /** One event deleted: its record logged, then the event removed and buried. */
  ghost predicate TookOne(a: Memory, b: Memory, id: Id) {
    && id in a.byId
    && b.byId == a.byId - {id}
    && b.view == Delete(a.view, id)
    && b.log == a.log + [OpDelete(id)]
  }

  lemma TookNothing(a: Memory)
    ensures Took(a, a, [])
  {
    assert (set id: Id | id in []) == {};
  }

  lemma TookMeans(a: Memory, b: Memory, ids: seq<Id>)
    requires Took(a, b, ids)
    ensures forall id :: id in b.byId <==> id in a.byId && id !in ids
    ensures forall id :: id in b.byId ==> b.byId[id] == a.byId[id]
    ensures forall id :: id in ids ==> id in a.byId
    ensures NoRepeats(ids)
  {
  }

  lemma TookTwice(a: Memory, b: Memory, c: Memory, first: seq<Id>, second: seq<Id>)
    requires Took(a, b, first) && Took(b, c, second)
    ensures NoRepeats(first + second)
    ensures c.byId == a.byId - (set x | x in first + second)
  {
    hide Run, Tombstones;
    var all := first + second;
    forall i, j | 0 <= i < j < |all| ensures all[i] != all[j] {
      if i < |first| <= j { assert all[j] in second && all[i] in first; }
    }
    assert (set x | x in all) == (set x | x in first) + (set x | x in second);
  }

  lemma TookBoth(a: Memory, b: Memory, c: Memory, first: seq<Id>, second: seq<Id>)
    requires Took(a, b, first) && Took(b, c, second)
    ensures Took(a, c, first + second)
  {
    hide Run, NoRepeats;
    TookTwice(a, b, c, first, second);
    var all := first + second;
    assert Tombstones(all) == Tombstones(first) + Tombstones(second);
    Wal.RunAppend(a.view, Tombstones(first), Tombstones(second));
    assert a.log + Tombstones(first) + Tombstones(second) == a.log + Tombstones(all);
  }

  lemma TookOneMore(a: Memory, b: Memory, c: Memory, ids: seq<Id>, id: Id)
    requires Took(a, b, ids) && TookOne(b, c, id)
    ensures Took(a, c, ids + [id])
  {
    hide Delete;
    assert Took(b, c, [id]) by {
      assert (set x | x in [id]) == {id};
      assert Tombstones([id]) == [OpDelete(id)];
      Replays.Run1(b.view, OpDelete(id));
    }
    TookBoth(a, b, c, ids, [id]);
  }

  // ---------------------------------------------------------------- references by id

  ghost predicate IdsDone(a: Memory, b: Memory, seen: set<Id>, author: Id, deleted: seq<Id>, foreign: nat) {
    && Took(a, b, deleted)
    && (forall id :: id in deleted <==> id in seen && id in a.byId && a.byId[id].pubkey == author)
    && foreign == |ForeignIds(a.byId, seen, author)|
  }

  lemma NoIdsYet(a: Memory, author: Id)
    ensures IdsDone(a, a, {}, author, [], 0)
  {
    TookNothing(a);
    assert ForeignIds(a.byId, {}, author) == {};
  }

  lemma IdTaken(a: Memory, b: Memory, c: Memory, seen: set<Id>, id: Id, author: Id, deleted: seq<Id>, foreign: nat)
    requires IdsDone(a, b, seen, author, deleted, foreign) && id !in seen
    requires TookOne(b, c, id) && b.byId[id].pubkey == author
    ensures IdsDone(a, c, seen + {id}, author, deleted + [id], foreign)
  {
    TookOneMore(a, b, c, deleted, id);
    TookMeans(a, b, deleted);
    assert ForeignIds(a.byId, seen + {id}, author) == ForeignIds(a.byId, seen, author);
  }

  lemma IdLeft(a: Memory, b: Memory, seen: set<Id>, id: Id, author: Id, deleted: seq<Id>, foreign: nat)
    requires IdsDone(a, b, seen, author, deleted, foreign) && id !in seen
    requires id in b.byId ==> b.byId[id].pubkey != author
    ensures IdsDone(a, b, seen + {id}, author, deleted, foreign + if id in b.byId then 1 else 0)
  {
    TookMeans(a, b, deleted);
    assert ForeignIds(a.byId, seen + {id}, author) ==
           ForeignIds(a.byId, seen, author) + if id in b.byId then {id} else {};
  }

  // ---------------------------------------------------------------- references by coordinate

  ghost predicate CoordinatesDone(a: Memory, b: Memory, cs: seq<Coordinate>, author: Id, until: nat,
                                  deleted: seq<Id>, foreign: nat, unknown: nat)
  {
    && Took(a, b, deleted)
    && (forall id :: id in deleted <==> id in a.byId && exists c :: c in cs && Targets(c, a.byId[id], author, until))
    && foreign == ForeignCoordinates(cs, author)
    && |deleted| + foreign + unknown == |cs|
  }

  lemma NoCoordinatesYet(a: Memory, author: Id, until: nat)
    ensures CoordinatesDone(a, a, [], author, until, [], 0, 0)
  {
    TookNothing(a);
  }

  lemma ForeignStep(cs: seq<Coordinate>, c: Coordinate, author: Id)
    ensures ForeignCoordinates(cs + [c], author) == ForeignCoordinates(cs, author) + if c.pubkey != author then 1 else 0
  {
    assert (cs + [c])[..|cs|] == cs;
  }

  lemma CoordinateTaken(a: Memory, b: Memory, b': Memory, cs: seq<Coordinate>, c: Coordinate, id: Id, author: Id,
                        until: nat, deleted: seq<Id>, foreign: nat, unknown: nat)
    requires CoordinatesDone(a, b, cs, author, until, deleted, foreign, unknown)
    requires TookOne(b, b', id) && Targets(c, b.byId[id], author, until)
    requires forall x :: x in b.byId && Targets(c, b.byId[x], author, until) ==> x == id
    ensures CoordinatesDone(a, b', cs + [c], author, until, deleted + [id], foreign, unknown)
  {
    hide KeyOf, CoordinateKey;
    TookOneMore(a, b, b', deleted, id);
    TookMeans(a, b, deleted);
    ForeignStep(cs, c, author);
    forall x
      ensures x in deleted + [id] <==> x in a.byId && exists d :: d in cs + [c] && Targets(d, a.byId[x], author, until)
    {
      if x in a.byId { NamedBySome(cs, c, a.byId[x], author, until); }
    }
  }

  lemma CoordinateLeft(a: Memory, b: Memory, cs: seq<Coordinate>, c: Coordinate, author: Id, until: nat,
                       deleted: seq<Id>, foreign: nat, unknown: nat)
    requires CoordinatesDone(a, b, cs, author, until, deleted, foreign, unknown)
    requires forall x :: x in b.byId ==> !Targets(c, b.byId[x], author, until)
    ensures c.pubkey != author ==> CoordinatesDone(a, b, cs + [c], author, until, deleted, foreign + 1, unknown)
    ensures c.pubkey == author ==> CoordinatesDone(a, b, cs + [c], author, until, deleted, foreign, unknown + 1)
  {
    hide KeyOf, CoordinateKey;
    TookMeans(a, b, deleted);
    ForeignStep(cs, c, author);
    forall x
      ensures x in deleted <==> x in a.byId && exists d :: d in cs + [c] && Targets(d, a.byId[x], author, until)
    {
      if x in a.byId { NamedBySome(cs, c, a.byId[x], author, until); }
    }
  }

  lemma NamedBySome(cs: seq<Coordinate>, c: Coordinate, e: Event, author: Id, until: nat)
    ensures (exists d :: d in cs + [c] && Targets(d, e, author, until)) <==>
            (exists d :: d in cs && Targets(d, e, author, until)) || Targets(c, e, author, until)
  {
    hide Targets;
    assert c in cs + [c];
    if d :| d in cs && Targets(d, e, author, until) { assert d in cs + [c]; }
  }

  // ---------------------------------------------------------------- the store

  class EventStore {
    const index: EventIndex
    const maxBytes: nat
    var log: seq<Op>

    ghost predicate Valid()
      reads this, index, index.tombstones
    {
      index.Valid()
    }

    constructor (ghost cat: Catalogue, maxBytes: nat)
      ensures Valid() && index.view == EMPTY && log == [] && this.maxBytes == maxBytes && index.cat == cat
    {
      index := new EventIndex(cat);
      this.maxBytes := maxBytes;
      log := [];
    }

    /** Publishing an event does to memory and log what the checkpoint model says it does. */
    method Insert(e: Event) returns (r: InsertResult)
      requires Valid() && Genuine(index.cat, e)
      modifies this, index
      ensures Valid()
      ensures index.view == Replays.Do(old(index.view), Replays.Publish(e))
      ensures log == old(log) + Replays.Records(old(index.view), Replays.Publish(e))
      ensures r.Kept? <==> !IsEphemeral(e) && Accepts(old(index.view), e)
      ensures r.Kept? ==> r.event == e && e in Live(index.view) &&
                            r.replaced == Holder(old(index.view), e)
      ensures r.Deleted? <==> !IsEphemeral(e) && e.id in old(index.view).tombs
      ensures r.Ephemeral? <==> 20000 <= e.kind < 30000
    {
      hide Filed, Represents, KeysPoint, Wf, ByteSum, OneEventPerId, KeyOf;
      if IsEphemeral(e) {
        return Ephemeral;
      }
      var outcome := index.Insert(e);
      match outcome {
        case Deleted => r := InsertResult.Deleted;
        case Duplicate => r := InsertResult.Duplicate;
        case LostRace => r := InsertResult.Duplicate;
        case Inserted(replaced) =>
          log := log + [OpInsert(e)];
          if replaced.Some? {
            log := log + [OpRemove(replaced.value.id)];
          }
          assert index.view.slots[SlotOf(e)] == e;
          r := InsertResult.Kept(e, replaced);
      }
    }

    /** `record_deletion`: the tombstone record goes to the log, memory is as it was. */
    method RecordDeletion(id: Id)
      modifies this`log
      ensures log == old(log) + [OpDelete(id)]
    {
      log := log + [OpDelete(id)];
    }

    /** An event may be deleted from memory only once its record is the last in the log. */
    method RemoveRecorded(id: Id)
      requires Valid() && log != [] && log[|log| - 1] == OpDelete(id)
      modifies index, index.tombstones
      ensures Valid()
      ensures index.byId == old(index.byId) - {id} && index.view == Delete(old(index.view), id)
    {
      hide Filed, Represents, KeysPoint, Wf, ByteSum, OneEventPerId, Delete;
      var removed := index.DeleteById(id);
    }

    /** One removal: the record goes to the log first, then the event goes from memory. */
    method Retract(id: Id)
      requires Valid() && id in index.byId
      modifies this, index, index.tombstones
      ensures Valid()
      ensures TookOne(old(Now()), Now(), id)
    {
      hide EventIndex.Valid, Delete;
      RecordDeletion(id);
      RemoveRecorded(id);
    }

    ghost function Now(): Memory
      reads this, index
    {
      Memory(index.byId, index.view, log)
    }

    method DeleteIds(ids: set<Id>, author: Id) returns (deleted: seq<Id>, foreign: nat)
      requires Valid()
      modifies this, index, index.tombstones
      ensures Valid()
      ensures IdsDone(old(Now()), Now(), ids, author, deleted, foreign)
    {
      hide EventIndex.Valid, TookOne, IdsDone;
      deleted, foreign := [], 0;
      NoIdsYet(Now(), author);
      var todo := ids;
      assert ids - todo == {};
      while todo != {}
        invariant todo <= ids && Valid()
        invariant IdsDone(old(Now()), Now(), ids - todo, author, deleted, foreign)
        decreases |todo|
      {
        var id :| id in todo;
        ghost var seen := ids - todo;
        todo := todo - {id};
        assert ids - todo == seen + {id};
        if id in index.byId && index.byId[id].pubkey == author {
          ghost var before := Now();
          Retract(id);
          IdTaken(old(Now()), before, Now(), seen, id, author, deleted, foreign);
          deleted := deleted + [id];
        } else {
          IdLeft(old(Now()), Now(), seen, id, author, deleted, foreign);
          if id in index.byId {
            foreign := foreign + 1;
          }
        }
      }
      assert ids - todo == ids;
    }

    method DeleteCoordinates(cs: seq<Coordinate>, author: Id, until: nat)
      returns (deleted: seq<Id>, foreign: nat, unknown: nat)
      requires Valid()
      modifies this, index, index.tombstones
      ensures Valid()
      ensures CoordinatesDone(old(Now()), Now(), cs, author, until, deleted, foreign, unknown)
    {
      hide EventIndex.Valid, TookOne, CoordinatesDone, KeyOf, CoordinateKey;
      deleted, foreign, unknown := [], 0, 0;
      NoCoordinatesYet(Now(), author, until);
      assert cs[..0] == [];
      for n := 0 to |cs|
        invariant Valid()
        invariant CoordinatesDone(old(Now()), Now(), cs[..n], author, until, deleted, foreign, unknown)
      {
        var c := cs[n];
        assert cs[..n + 1] == cs[..n] + [c];
        if c.pubkey != author {
          CoordinateLeft(old(Now()), Now(), cs[..n], c, author, until, deleted, foreign, unknown);
          foreign := foreign + 1;
        } else {
          var targets := index.KeyTargets(CoordinateKey(c), until);
          if targets == [] {
            assert forall id :: id in index.byId ==> id !in targets;
            CoordinateLeft(old(Now()), Now(), cs[..n], c, author, until, deleted, foreign, unknown);
            unknown := unknown + 1;
          } else {
            var id := targets[0];
            assert id in targets && forall x :: x in targets ==> x == id;
            ghost var before := Now();
            Retract(id);
            CoordinateTaken(old(Now()), before, Now(), cs[..n], c, id, author, until, deleted, foreign, unknown);
            deleted := deleted + [id];
          }
        }
      }
      assert cs[..|cs|] == cs;
    }

    /** A deletion request removes exactly the events it dooms: it lists each once, buries
        exactly those, and logs one record for each before removing it. References to other
        authors are counted, and every coordinate is accounted for. */
    method ApplyDeletion(req: DeletionRequest, author: Id, until: nat) returns (outcome: DeletionOutcome)
      requires Valid()
      modifies this, index, index.tombstones
      ensures Valid()
      ensures Took(old(Now()), Now(), outcome.deletedIds)
      ensures forall id :: id in outcome.deletedIds <==>
                id in old(index.byId) && Doomed(old(index.byId)[id], req, author, until)
      ensures outcome.skippedForeign ==
              |ForeignIds(old(index.byId), req.ids, author)| + ForeignCoordinates(req.coordinates, author)
      ensures |outcome.deletedIds| + ForeignCoordinates(req.coordinates, author) + outcome.unknownCoordinates ==
              |OwnIds(old(index.byId), req.ids, author)| + |req.coordinates|
    {
      assert forall id :: id in index.byId ==> index.byId[id].id == id;
      hide EventIndex.Valid, IdsDone, CoordinatesDone, Took, Doomed, ForeignIds, OwnIds;
      var byIds, foreignIds := DeleteIds(req.ids, author);
      ghost var middle := Now();
      var byCoordinates, foreignCoordinates, unknown := DeleteCoordinates(req.coordinates, author, until);
      BothWays(old(Now()), middle, Now(), req, author, until, byIds, foreignIds, byCoordinates, foreignCoordinates,
               unknown);
      outcome := DeletionOutcome(byIds + byCoordinates, foreignIds + foreignCoordinates, unknown);
    }

    /** The byte counter is the weight of what is stored. */
    lemma BytesMatchView()
      requires Valid()
      ensures index.memoryBytes == Weight(index.view)
      ensures forall e :: e in Live(index.view) <==> Stored(index.byId, e)
    {
      hide Filed, Wf, KeysPoint, ByteSum, SetBytes;
      LiveAreStored(index.byId, index.view);
      BytesAreWeight(index.cat, index.byId, Live(index.view));
    }

    /** Insert one event while loading, then evict the oldest events if the limit is passed. */
    method Ingest(e: Event) returns (evicted: seq<Event>)
      requires Valid() && Genuine(index.cat, e)
      modifies index
      ensures Valid()
      ensures Threshold(maxBytes) > 0 ==> index.memoryBytes <= Threshold(maxBytes)
      ensures index.view == Run(StoreSpec.Insert(old(index.view), e), Removals(evicted))
      ensures EvictsRight(StoreSpec.Insert(old(index.view), e), evicted, maxBytes)
      ensures NoNewer(evicted, index.byId)
    {
      hide EventIndex.Valid, Run, Removals, StoreSpec.Insert, SetBytes, EvictionDue, Live, Weight;
      evicted := [];
      var outcome := index.Insert(e);
      ghost var inserted := index.view;
      RunNothing(inserted);
      BytesMatchView();
      if Threshold(maxBytes) > 0 && index.memoryBytes > Threshold(maxBytes) {
        while index.memoryBytes > EvictionTarget(maxBytes)
          invariant Valid()
          invariant index.view == Run(inserted, Removals(evicted))
          invariant AllDue(inserted, evicted, EvictionTarget(maxBytes))
          invariant NoNewer(evicted, index.byId)
          decreases |index.byId|
        {
          var oldest := index.GetOldest(1);
          if oldest == [] {
            EmptyIsLight();
            break;
          }
          ghost var before := index.byId;
          var o := oldest[0];
          assert o in oldest && Stored(index.byId, o) && |oldest| == 1;
          DueNow(o, EvictionTarget(maxBytes));
          OneMoreDue(inserted, evicted, o, EvictionTarget(maxBytes));
          OldestGoesFirst(evicted, before, o);
          RemovalsAppend(inserted, evicted, o);
          var removed := index.Remove(o.id);
          evicted := evicted + [o];
        }
        BytesMatchView();
        assert evicted[..|evicted|] == evicted;
      }
    }

    lemma EmptyIsLight()
      requires Valid() && |index.byId| == 0
      ensures index.memoryBytes == 0
    {
      EmptyWeighsNothing(index.byId);
    }

    /** The oldest event of an index that is too heavy is due for eviction. */
    lemma DueNow(o: Event, target: nat)
      requires Valid() && Stored(index.byId, o) && index.memoryBytes > target
      requires forall y :: Stored(index.byId, y) && y != o ==> o.createdAt <= y.createdAt
      ensures EvictionDue(index.view, o, target)
    {
      hide EventIndex.Valid;
      BytesMatchView();
    }

    /** Recovery: the snapshot line by line, then both segments, as the files hold them, with after
        each insert the evictions it calls for and no other. If the events in the files together fit
        the threshold, or there is no limit, this is the recovery of the crash machine. `applied` is
        whether the checkpoint at the end of loading is due. */
    method LoadFromDisk(parse: Wal.Parser, f: Checkpoint.Files)
      returns (applied: bool, ghost evictions: seq<seq<Event>>)
      requires Valid() && index.view == EMPTY
      requires Checkpoint.ReadsGenuine(index.cat, parse, f)
      modifies index, index.tombstones
      ensures Valid()
      ensures LoadsRight(EMPTY, FileRecords(parse, f), evictions, maxBytes)
      ensures index.view == Woven(EMPTY, FileRecords(parse, f), evictions)
      ensures maxBytes * 90 / 100 == 0 || SetBytes(InsertedEvents(FileRecords(parse, f))) <= maxBytes * 90 / 100 ==>
                index.view == Checkpoint.Recover(parse, f)
      ensures maxBytes * 90 / 100 > 0 ==> index.memoryBytes <= maxBytes * 90 / 100
      ensures applied <==> Checkpoint.Applied(parse, f)
    {
      hide EventIndex.Valid, Run, Wal.Replay, Wal.Meanings, Snapshots.ReadLines, Snapshots.ParseAll, LoadsRight, Woven,
        SetBytes, InsertedEvents, Weight, Checkpoint.Recover;
      NothingWoven(EMPTY, maxBytes);
      var lines := Snapshots.ReadAllLines(f.snapshot);
      var events := ParseLines(parse, lines);
      ghost var first := Replay(Inserts(events));
      var rotated := ReadSegment(parse, if f.rotated.Some? then f.rotated.value else []);
      ghost var second := Replay(rotated);
      WovenAppend(EMPTY, Inserts(events), first, rotated, second, maxBytes);
      var wal := ReadSegment(parse, f.wal);
      ghost var third := Replay(wal);
      WovenAppend(EMPTY, Inserts(events) + rotated, first + second, wal, third, maxBytes);
      applied := events != [] || rotated != [] || wal != [];
      evictions := first + second + third;
      if maxBytes * 90 / 100 == 0 || SetBytes(InsertedEvents(FileRecords(parse, f))) <= maxBytes * 90 / 100 {
        LoadsAllThatFits(parse, f, evictions, maxBytes);
      }
      if maxBytes * 90 / 100 > 0 { LoadsEndWithinThreshold(FileRecords(parse, f), evictions, maxBytes); }
      BytesMatchView();
    }

    /** Replaying records: an insert is ingested, a deletion removes, a tombstone also buries. */
    method Replay(ops: seq<Op>) returns (ghost evictions: seq<seq<Event>>)
      requires Valid() && AllGenuine(index.cat, ops)
      modifies index, index.tombstones
      ensures Valid()
      ensures |evictions| == |ops| && LoadsRight(old(index.view), ops, evictions, maxBytes)
      ensures index.view == Woven(old(index.view), ops, evictions)
    {
      hide EventIndex.Valid, Run, StoreSpec.Insert, StoreSpec.Delete, StoreSpec.Remove, LoadsRight, Woven, EvictsRight,
        Removals, Threshold;
      evictions := [];
      NothingWoven(index.view, maxBytes);
      assert ops[..0] == [];
      for n := 0 to |ops|
        invariant Valid()
        invariant |evictions| == n && LoadsRight(old(index.view), ops[..n], evictions, maxBytes)
        invariant index.view == Woven(old(index.view), ops[..n], evictions)
      {
        ghost var viewed := index.view;
        ghost var gone: seq<Event> := [];
        match ops[n] {
          case OpInsert(e) =>
            var evicted := Ingest(e);
            gone := evicted;
          case OpRemove(id) =>
            var removed := index.Remove(id);
            RunNothing(index.view);
          case OpDelete(id) =>
            index.ReplayTombstone(id);
            RunNothing(index.view);
        }
        WovenOneMore(old(index.view), ops[..n], evictions, ops[n], gone, maxBytes);
        evictions := evictions + [gone];
        assert ops[..n + 1] == ops[..n] + [ops[n]];
      }
      assert ops[..|ops|] == ops;
    }

    /** Background eviction: the oldest events go, in chunks of a hundred, until payload and process
        are within bounds or the batch is used up; not a chunk more. */
    method MaybeEvict(budget: nat, processMemory: nat) returns (evicted: seq<Event>)
      requires Valid()
      modifies index
      ensures Valid()
      ensures NoNewer(evicted, index.byId)
      ensures index.view == Run(old(index.view), Removals(evicted))
      ensures |index.byId| == |old(index.byId)| - |evicted|
      ensures index.view == Replays.DoAll(old(index.view), Evictions(evicted))
      ensures Replays.Log(old(index.view), Evictions(evicted)) == []
      ensures StillOver(old(index.view), evicted, budget * 90 / 100, processMemory, maxBytes)
      ensures evicted != [] ==>
                maxBytes > 0 && (old(index.memoryBytes) > budget * 90 / 100 || processMemory > maxBytes)
      ensures maxBytes > 0 && (old(index.memoryBytes) > budget * 90 / 100 || processMemory > maxBytes) ==>
                var batch := if processMemory > maxBytes then 5000 else 1000;
                && |evicted| <= batch
                && (|evicted| % 100 == 0 || |evicted| == batch || index.byId == map[])
                && (|| (index.memoryBytes <= budget * 90 / 100 && processMemory <= maxBytes)
                    || |evicted| == batch
                    || index.byId == map[])
    {
      hide EventIndex.Valid, Run, NoNewer, Weight, Removals;
      evicted := [];
      RunNothing(index.view);
      NoneEvicted(index.byId);
      EvictionsAreRemovals(index.view, []);
      if maxBytes == 0 {
        return;
      }
      var target := budget * 90 / 100;
      if index.memoryBytes > target || processMemory > maxBytes {
        evicted := EvictBatch(BatchOf(processMemory, maxBytes), target, processMemory);
        EvictionsAreRemovals(old(index.view), evicted);
      }
    }

    method EvictBatch(batch: nat, target: nat, processMemory: nat) returns (evicted: seq<Event>)
      requires Valid() && batch >= 1
      modifies index
      ensures Valid()
      ensures NoNewer(evicted, index.byId)
      ensures index.view == Run(old(index.view), Removals(evicted))
      ensures || (index.memoryBytes <= target && processMemory <= maxBytes)
              || |evicted| == batch
              || index.byId == map[]
      ensures |evicted| <= batch && |index.byId| == |old(index.byId)| - |evicted|
      ensures StillOver(old(index.view), evicted, target, processMemory, maxBytes)
      ensures |evicted| % 100 == 0 || |evicted| == batch || index.byId == map[]
    {
      hide EventIndex.Valid, Run, Before, EvictedUpTo, NoNewer, Removals, Stored, Weight;
      var oldest := index.GetOldest(batch);
      ghost var byId0, view0 := index.byId, index.view;
      RunNothing(index.view);
      NoneEvictedYet(byId0, oldest);
      var i := 0;
      assert oldest[..0] == [];
      while i < |oldest|
        invariant 0 <= i <= |oldest| && Valid()
        invariant EvictedUpTo(byId0, index.byId, oldest, i)
        invariant index.view == Run(view0, Removals(oldest[..i]))
        invariant i % 100 == 0 || i == |oldest|
        invariant StillOver(view0, oldest[..i], target, processMemory, maxBytes)
        invariant 0 < i < |oldest| ==> index.memoryBytes > target || processMemory > maxBytes
      {
        ghost var last := i;
        BytesMatchView();
        var stop := if i + EVICT_CHUNK < |oldest| then i + EVICT_CHUNK else |oldest|;
        EvictChunk(byId0, view0, oldest, i, stop);
        i := stop;
        OverUntil(view0, oldest, last, stop, target, processMemory, maxBytes);
        if index.memoryBytes <= target && processMemory <= maxBytes {
          break;
        }
      }
      evicted := oldest[..i];
      PrefixIsNoNewer(byId0, index.byId, oldest, i);
      EvictedCount(byId0, index.byId, oldest, i);
    }

    method EvictChunk(ghost byId0: map<Id, Event>, ghost view0: Store, oldest: seq<Event>, first: nat, stop: nat)
      requires Valid() && first <= stop <= |oldest|
      requires forall x :: x in oldest ==> Stored(byId0, x)
      requires forall a, b :: 0 <= a < b < |oldest| ==> Before(oldest[b], oldest[a])
      requires EvictedUpTo(byId0, index.byId, oldest, first) && index.view == Run(view0, Removals(oldest[..first]))
      modifies index
      ensures Valid()
      ensures EvictedUpTo(byId0, index.byId, oldest, stop) && index.view == Run(view0, Removals(oldest[..stop]))
    {
      hide EventIndex.Valid, Run, Before, EvictedUpTo, Removals, Stored, StoreSpec.Remove;
      for i := first to stop
        invariant Valid()
        invariant EvictedUpTo(byId0, index.byId, oldest, i) && index.view == Run(view0, Removals(oldest[..i]))
      {
        assert oldest[i] in oldest;
        index.ValidIsConsistent();
        EvictOneMore(index.cat, byId0, index.byId, oldest, i);
        RemovalsAppend(view0, oldest[..i], oldest[i]);
        assert oldest[..i + 1] == oldest[..i] + [oldest[i]];
        var removed := index.Remove(oldest[i].id);
      }
    }
  }

  /** The lines that parse; a line that does not is counted as an error and skipped. */
  method ParseLines(parse: Wal.Parser, lines: seq<Bytes>) returns (events: seq<Event>)
    ensures events == Snapshots.ParseAll(parse, lines)
  {
    events := [];
    for n := 0 to |lines|
      invariant events == Snapshots.ParseAll(parse, lines[..n])
    {
      assert lines[..n + 1][..n] == lines[..n];
      if parse(lines[n]).Some? {
        events := events + [parse(lines[n]).value];
      }
    }
    assert lines[..|lines|] == lines;
  }

  /** A segment's records up to its end or to the first that is torn, as operations. */
  method ReadSegment(parse: Wal.Parser, segment: Bytes) returns (ops: seq<Op>)
    ensures ops == Checkpoint.ReadLog(parse, segment)
  {
    hide Wal.Replay;
    var records, ok := Wal.ReplayPath(segment);
    assert records == Wal.Replay(segment).ops;
    ops := [];
    for n := 0 to |records|
      invariant ops == Wal.Meanings(parse, records[..n])
    {
      assert records[..n + 1][..n] == records[..n];
      ops := ops + Wal.Meaning(parse, records[n]);
    }
    assert records[..|records|] == records;
  }

  const EVICT_CHUNK: nat := 100

  function BatchOf(processMemory: nat, maxBytes: nat): (n: nat)
    ensures n >= 1
  {
    if processMemory > maxBytes then 5000 else 1000
  }

  /** Nothing evicted is newer than anything left. */
  ghost predicate NoNewer(evicted: seq<Event>, byId: map<Id, Event>) {
    forall x, y :: x in evicted && Stored(byId, y) ==> x.createdAt <= y.createdAt
  }

  lemma NoneEvicted(byId: map<Id, Event>)
    ensures NoNewer([], byId)
  {
  }

  lemma EmptyWeighsNothing(byId: map<Id, Event>)
    requires |byId| == 0
    ensures ByteSum(byId) == 0 && byId == map[]
  {
  }

  lemma EmptyViewEmptyIndex(byId: map<Id, Event>)
    requires Represents(byId, map[])
    ensures byId == map[]
  {
  }

  lemma OldestGoesFirst(evicted: seq<Event>, byId: map<Id, Event>, o: Event)
    requires NoNewer(evicted, byId) && Stored(byId, o)
    requires forall y :: Stored(byId, y) && y != o ==> o.createdAt <= y.createdAt
    ensures NoNewer(evicted + [o], byId - {o.id})
  {
    forall x, y | x in evicted + [o] && Stored(byId - {o.id}, y) ensures x.createdAt <= y.createdAt {
      assert Stored(byId, y) && y != o;
    }
  }

  ghost predicate EvictedUpTo(byId0: map<Id, Event>, byId: map<Id, Event>, oldest: seq<Event>, i: nat) {
    && i <= |oldest|
    && |byId| == |byId0| - i
    && forall y :: Stored(byId, y) <==> Stored(byId0, y) && y !in oldest[..i]
  }

  /** At every chunk boundary strictly inside the evicted events, payload or process was still over. */
  ghost predicate StillOver(s: Store, evicted: seq<Event>, target: nat, processMemory: nat, maxBytes: nat) {
    forall m :: 0 < m < |evicted| && m % 100 == 0 ==>
      Weight(AfterEvictions(s, evicted, m)) > target || processMemory > maxBytes
  }

  lemma OverUntil(s: Store, oldest: seq<Event>, i: nat, stop: nat, target: nat, processMemory: nat, maxBytes: nat)
    requires i % 100 == 0 && i <= stop <= i + 100 && stop <= |oldest|
    requires StillOver(s, oldest[..i], target, processMemory, maxBytes)
    requires i > 0 ==> Weight(Run(s, Removals(oldest[..i]))) > target || processMemory > maxBytes
    ensures StillOver(s, oldest[..stop], target, processMemory, maxBytes)
  {
    hide Weight, Run, Removals;
    forall m | 0 < m < stop && m % 100 == 0
      ensures Weight(AfterEvictions(s, oldest[..stop], m)) > target || processMemory > maxBytes
    {
      assert m <= i;
      assert oldest[..stop][..m] == oldest[..m];
      if m < i {
        assert oldest[..i][..m] == oldest[..m];
        assert AfterEvictions(s, oldest[..i], m) == AfterEvictions(s, oldest[..stop], m);
      }
    }
  }

  lemma EvictedCount(byId0: map<Id, Event>, byId: map<Id, Event>, oldest: seq<Event>, i: nat)
    requires EvictedUpTo(byId0, byId, oldest, i)
    ensures |byId| == |byId0| - i
  {
  }

  lemma NoneEvictedYet(byId0: map<Id, Event>, oldest: seq<Event>)
    ensures EvictedUpTo(byId0, byId0, oldest, 0)
  {
  }

  lemma EvictOneMore(cat: Catalogue, byId0: map<Id, Event>, byId: map<Id, Event>, oldest: seq<Event>, i: nat)
    requires EvictedUpTo(byId0, byId, oldest, i) && OneEventPerId(cat, byId) && i < |oldest| && Stored(byId0, oldest[i])
    requires forall a, b :: 0 <= a < b < |oldest| ==> Before(oldest[b], oldest[a])
    ensures EvictedUpTo(byId0, byId - {oldest[i].id}, oldest, i + 1)
  {
    var o := oldest[i];
    forall a | 0 <= a < i ensures oldest[a] != o { BeforeTotal(o, oldest[a]); }
    assert Stored(byId, o);
    assert oldest[..i + 1] == oldest[..i] + [o];
    forall y ensures Stored(byId - {o.id}, y) <==> Stored(byId, y) && y != o {}
  }

  lemma PrefixIsNoNewer(byId0: map<Id, Event>, byId: map<Id, Event>, oldest: seq<Event>, i: nat)
    requires EvictedUpTo(byId0, byId, oldest, i)
    requires forall a, b :: 0 <= a < b < |oldest| ==> Before(oldest[b], oldest[a])
    requires forall x, y :: Stored(byId0, x) && x !in oldest && y in oldest ==> y.createdAt <= x.createdAt
    ensures NoNewer(oldest[..i], byId)
    ensures i == |byId0| ==> byId == map[]
  {
    forall x, y | x in oldest[..i] && Stored(byId, y) ensures x.createdAt <= y.createdAt {
      var a :| 0 <= a < i && oldest[a] == x;
      if y in oldest {
        var b :| 0 <= b < |oldest| && oldest[b] == y;
        assert b >= i by { assert forall j :: 0 <= j < i ==> oldest[j] in oldest[..i]; }
        assert Before(oldest[b], oldest[a]);
      } else {
        assert Stored(byId0, y) && x in oldest;
      }
    }
  }

  lemma BothWays(a: Memory, b: Memory, c: Memory, req: DeletionRequest, author: Id, until: nat,
                 byIds: seq<Id>, foreignIds: nat, byCoordinates: seq<Id>, foreignCoordinates: nat, unknown: nat)
    requires forall id :: id in a.byId ==> a.byId[id].id == id
    requires IdsDone(a, b, req.ids, author, byIds, foreignIds)
    requires CoordinatesDone(b, c, req.coordinates, author, until, byCoordinates, foreignCoordinates, unknown)
    ensures Took(a, c, byIds + byCoordinates)
    ensures forall id :: id in byIds + byCoordinates <==> id in a.byId && Doomed(a.byId[id], req, author, until)
    ensures foreignIds + foreignCoordinates == |ForeignIds(a.byId, req.ids, author)| +
            ForeignCoordinates(req.coordinates, author)
    ensures |byIds + byCoordinates| + foreignCoordinates + unknown ==
            |OwnIds(a.byId, req.ids, author)| + |req.coordinates|
    ensures foreignCoordinates == ForeignCoordinates(req.coordinates, author)
  {
    TookBoth(a, b, c, byIds, byCoordinates);
    EventSets.DistinctCount(byIds);
    assert OwnIds(a.byId, req.ids, author) == set id | id in byIds;
    TookMeans(a, b, byIds);
    forall id ensures id in byIds + byCoordinates <==> id in a.byId && Doomed(a.byId[id], req, author, until) {
      if id in a.byId { TargetsAreOwn(a.byId[id], req, author, until); }
    }
  }

  lemma TargetsAreOwn(e: Event, req: DeletionRequest, author: Id, until: nat)
    ensures (exists c :: c in req.coordinates && Targets(c, e, author, until)) ==> e.pubkey == author
  {
  }

  function Evictions(evicted: seq<Event>): seq<Replays.MemOp> {
    seq(|evicted|, i requires 0 <= i < |evicted| => Replays.Evict(evicted[i].id))
  }

  /** Evictions are the crash machine's, and leave no trace in the log. */
  lemma {:induction false} EvictionsAreRemovals(s: Store, evicted: seq<Event>)
    ensures Replays.DoAll(s, Evictions(evicted)) == Run(s, Removals(evicted))
    ensures Replays.Log(s, Evictions(evicted)) == []
  {
    hide StoreSpec.Remove;
    if evicted == [] {
      RunNothing(s);
    } else {
      var before, e := evicted[..|evicted| - 1], evicted[|evicted| - 1];
      EvictionsAreRemovals(s, before);
      assert evicted == before + [e];
      assert Evictions(evicted) == Evictions(before) + [Replays.Evict(e.id)];
      Replays.OneMore(s, Evictions(before), Replays.Evict(e.id));
      RemovalsAppend(s, before, e);
    }
  }

  function Retracts(ids: seq<Id>): seq<Replays.MemOp> {
    seq(|ids|, i requires 0 <= i < |ids| => Replays.Retract(ids[i]))
  }

  /** A deletion is a run of retractions of the checkpoint model, and logs what they log. */
  lemma {:induction false} DeletionIsRetractions(cat: Catalogue, a: Memory, b: Memory, ids: seq<Id>)
    requires Took(a, b, ids) && OneEventPerId(cat, a.byId) && Represents(a.byId, a.view.slots)
    ensures b.view == Replays.DoAll(a.view, Retracts(ids))
    ensures Tombstones(ids) == Replays.Log(a.view, Retracts(ids))
    ensures Represents(b.byId, b.view.slots)
    decreases |ids|
  {
    hide Delete, Run, Replays.DoAll, Replays.Log, Represents;
    if ids == [] {
      assert (set id: Id | id in ids) == {} && a.byId - {} == a.byId;
      assert Tombstones(ids) == [] && Retracts(ids) == [];
      Replays.NoneYet(a.view);
      RunNothing(a.view);
    } else {
      var n := |ids| - 1;
      var before, id := ids[..n], ids[n];
      assert ids == before + [id];
      var m := Memory(a.byId - (set x | x in before), Run(a.view, Tombstones(before)), a.log + Tombstones(before));
      DeletionIsRetractions(cat, a, m, before);
      assert id in m.byId;
      HeldInView(m.byId, m.view, id);
      assert Tombstones(ids) == Tombstones(before) + [OpDelete(id)];
      assert Retracts(ids) == Retracts(before) + [Replays.Retract(id)];
      Wal.RunAppend(a.view, Tombstones(before), [OpDelete(id)]);
      Replays.Run1(m.view, OpDelete(id));
      Replays.OneMore(a.view, Retracts(before), Replays.Retract(id));
      assert (set x | x in ids) == (set x | x in before) + {id};
      assert b.byId == m.byId - {id};
      DeleteRepresents(cat, m.byId, m.view, id);
    }
  }

  lemma RunNothing(s: Store)
    ensures Run(s, []) == s && Run(s, Removals([])) == s
  {
    assert Removals([]) == [];
  }

  lemma DeleteRepresents(cat: Catalogue, byId: map<Id, Event>, s: Store, id: Id)
    requires OneEventPerId(cat, byId) && Represents(byId, s.slots)
    ensures Represents(byId - {id}, Delete(s, id).slots)
  {
    RepresentsWithout(cat, byId, s.slots, id);
  }

  lemma HeldInView(byId: map<Id, Event>, s: Store, id: Id)
    requires Represents(byId, s.slots) && id in byId && byId[id].id == id
    ensures Replays.Holds(s, id)
  {
    assert s.slots[SlotOf(byId[id])].id == id;
  }

  // ---------------------------------------------------------------- no resurrection

  lemma {:induction false} FreshAppend(s: Store, a: seq<Op>, b: seq<Op>)
    ensures FreshBurials(s, a + b) == FreshBurials(s, a) + FreshBurials(Run(s, a), b)
    ensures FreshBurials(s, a) <= |a|
    decreases |a| + |b|
  {
    hide Apply;
    if b != [] {
      var b0 := b[..|b| - 1];
      assert (a + b)[..|a + b| - 1] == a + b0;
      FreshAppend(s, a, b0);
      Wal.RunAppend(s, a, b0);
    } else {
      assert a + b == a;
      if a != [] { FreshAppend(s, a[..|a| - 1], []); }
    }
  }

  /** What a deletion request removed stays removed: whatever is published, evicted or deleted
      afterwards, publishing the event again is answered with `Deleted` until so many further
      ids have been buried that its tombstone is forgotten. */
  lemma DeletedStayDeleted(cat: Catalogue, a: Memory, b: Memory, ids: seq<Id>, i: nat, later: seq<Op>, e: Event)
    requires Took(a, b, ids) && Wf(cat, a.view) && AllGenuine(cat, later)
    requires OneEventPerId(cat, a.byId) && Represents(a.byId, a.view.slots)
    requires i < |ids| && e.id == ids[i]
    requires (|ids| - 1 - i) + FreshBurials(b.view, later) < MAX_TOMBSTONES
    ensures InsertOutcome(Run(b.view, later), e) == Outcome.Deleted && e !in Live(Run(b.view, later))
  {
    hide Run, FreshBurials, Wf, Took, InsertOutcome, Apply;
    TookViews(a, b, ids);
    assert e.id !in ids[..i];
    FreshUntilBuried(cat, a, ids[..i], e.id);
    var early, late := Tombstones(ids[..i]), Tombstones(ids[i + 1..]);
    assert Tombstones(ids) == early + [OpDelete(e.id)] + late;
    var s := Run(a.view, early);
    Wal.RunAppend(a.view, early + [OpDelete(e.id)], late);
    Wal.RunAppend(a.view, early, [OpDelete(e.id)]);
    Replays.Run1(s, OpDelete(e.id));
    DeleteApplies(s, e.id);
    FreshAppend(Delete(s, e.id), late, later);
    Wal.RunAppend(Delete(s, e.id), late, later);
    RunKeepsWf(cat, a.view, early);
    NoResurrection(cat, s, e.id, late + later);
  }

  lemma DeleteApplies(s: Store, id: Id)
    ensures Apply(s, OpDelete(id)) == Delete(s, id)
  {
  }

  lemma TookViews(a: Memory, b: Memory, ids: seq<Id>)
    requires Took(a, b, ids)
    ensures b.view == Run(a.view, Tombstones(ids))
    ensures NoRepeats(ids) && forall id :: id in ids ==> id in a.byId
  {
  }

  /** A stored event carries no tombstone, and burying others does not give it one. */
  lemma {:induction false} FreshUntilBuried(cat: Catalogue, a: Memory, others: seq<Id>, id: Id)
    requires Wf(cat, a.view) && OneEventPerId(cat, a.byId) && Represents(a.byId, a.view.slots)
    requires id in a.byId && id !in others
    ensures id !in Run(a.view, Tombstones(others)).tombs
  {
    if others == [] {
      assert a.view.slots[SlotOf(a.byId[id])] == a.byId[id];
    } else {
      var n := |others| - 1;
      FreshUntilBuried(cat, a, others[..n], id);
      assert Tombstones(others)[..n] == Tombstones(others[..n]);
      RunKeepsWf(cat, a.view, Tombstones(others[..n]));
      BuryKeepsQueue(Run(a.view, Tombstones(others[..n])).tombs, others[n]);
    }
  }
}
