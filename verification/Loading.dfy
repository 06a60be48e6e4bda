/** What loading under a memory limit must do (src/store/mod.rs:785-926), said about whole stores:
    when events are evicted, which, and how many. `EventStore` is proved to load in this way. */
module Loading {
  import opened Events
  import opened StoreSpec
  import opened EventIndexes
  import Wal
  import Replays
  import Checkpoint
  import Snapshots

  // ---------------------------------------------------------------- weight

  /** The payload bytes of a set of events. */
  ghost function SetBytes(es: set<Event>): nat {
    if es == {} then 0
    else
      var e :| e in es;
      |e.raw| + SetBytes(es - {e})
  }

  /** The payload bytes a store holds. */
  ghost function Weight(s: Store): nat {
    SetBytes(Live(s))
  }

  lemma {:induction false} SetBytesWithout(es: set<Event>, e: Event)
    requires e in es
    ensures SetBytes(es) == |e.raw| + SetBytes(es - {e})
  {
    var picked :| picked in es && SetBytes(es) == |picked.raw| + SetBytes(es - {picked});
    if picked != e {
      SetBytesWithout(es - {picked}, e);
      SetBytesWithout(es - {e}, picked);
      assert (es - {picked}) - {e} == (es - {e}) - {picked};
    }
  }

  lemma {:induction false} SetBytesSubset(es: set<Event>, fs: set<Event>)
    requires es <= fs
    ensures SetBytes(es) <= SetBytes(fs)
    decreases fs
  {
    if es != fs {
      var e :| e in fs && e !in es;
      SetBytesWithout(fs, e);
      SetBytesSubset(es, fs - {e});
    }
  }

  /** The index's byte count is the weight of its view. */
  lemma {:induction false} BytesAreWeight(cat: Catalogue, byId: map<Id, Event>, es: set<Event>)
    requires OneEventPerId(cat, byId) && forall e :: e in es <==> Stored(byId, e)
    ensures ByteSum(byId) == SetBytes(es)
    decreases |byId|
  {
    if byId == map[] {
      assert es == {};
    } else {
      var id :| id in byId;
      var e := byId[id];
      assert Stored(byId, e);
      ByteSumWithout(byId, id);
      SetBytesWithout(es, e);
      BytesAreWeight(cat, byId - {id}, es - {e});
    }
  }

  lemma LiveAreStored(byId: map<Id, Event>, s: Store)
    requires Represents(byId, s.slots)
    ensures forall e :: e in Live(s) <==> Stored(byId, e)
  {
  }

  // ---------------------------------------------------------------- evictions

  function Threshold(maxBytes: nat): nat {
    maxBytes * 90 / 100
  }

  function EvictionTarget(maxBytes: nat): nat {
    maxBytes * 70 / 100
  }

  /** Loading evicts at all exactly from a limit of two bytes on. */
  lemma LimitInForce(maxBytes: nat)
    ensures Threshold(maxBytes) > 0 <==> maxBytes >= 2
    ensures EvictionTarget(maxBytes) <= Threshold(maxBytes) <= maxBytes
  {
  }

  function Removals(evicted: seq<Event>): seq<Op> {
    seq(|evicted|, i requires 0 <= i < |evicted| => OpRemove(evicted[i].id))
  }

  /** The store once the first `m` evicted events are gone. */
  function AfterEvictions(s: Store, evicted: seq<Event>, m: nat): Store
    requires m <= |evicted|
  {
    Run(s, Removals(evicted[..m]))
  }

  /** The next event evicted is a stored one, none stored is older, and the store is too heavy. */
  ghost predicate EvictionDue(s: Store, e: Event, target: nat) {
    && e in Live(s) && Weight(s) > target
    && forall y :: y in Live(s) ==> e.createdAt <= y.createdAt
  }

  /** Evicting from `s`: nothing, unless there is a limit and nine tenths of it are exceeded; then
      the oldest events one by one, until seven tenths are kept. */
  ghost predicate EvictsRight(s: Store, evicted: seq<Event>, maxBytes: nat) {
    if maxBytes * 90 / 100 == 0 || Weight(s) <= maxBytes * 90 / 100 then evicted == []
    else
      && (forall m :: 0 <= m < |evicted| ==>
            EvictionDue(AfterEvictions(s, evicted, m), evicted[m], maxBytes * 70 / 100))
      && Weight(AfterEvictions(s, evicted, |evicted|)) <= maxBytes * 70 / 100
  }

  lemma RemovalsAppend(s: Store, evicted: seq<Event>, o: Event)
    ensures Run(s, Removals(evicted + [o])) == StoreSpec.Remove(Run(s, Removals(evicted)), o.id)
  {
    assert Removals(evicted + [o]) == Removals(evicted) + [OpRemove(o.id)];
    Wal.RunAppend(s, Removals(evicted), [OpRemove(o.id)]);
    Replays.Run1(Run(s, Removals(evicted)), OpRemove(o.id));
  }

  /** What each eviction so far was due to, as it stands while the loop runs. */
  ghost predicate AllDue(s: Store, evicted: seq<Event>, target: nat) {
    forall m :: 0 <= m < |evicted| ==> EvictionDue(AfterEvictions(s, evicted, m), evicted[m], target)
  }

  lemma OneMoreDue(s: Store, evicted: seq<Event>, o: Event, target: nat)
    requires AllDue(s, evicted, target) && EvictionDue(Run(s, Removals(evicted)), o, target)
    ensures AllDue(s, evicted + [o], target)
  {
    hide Run, Removals, EvictionDue;
    var more := evicted + [o];
    forall m | 0 <= m < |more| ensures EvictionDue(AfterEvictions(s, more, m), more[m], target) {
      assert more[..m] == if m < |evicted| then evicted[..m] else evicted;
    }
  }

  // ---------------------------------------------------------------- loading

  /** The records applied in order, the events of `evictions[n]` being evicted after the n-th. */
  function Woven(s: Store, ops: seq<Op>, evictions: seq<seq<Event>>): Store
    requires |evictions| == |ops|
  {
    if ops == [] then s
    else
      var n := |ops| - 1;
      Run(Apply(Woven(s, ops[..n], evictions[..n]), ops[n]), Removals(evictions[n]))
  }

  /** Every insert is followed by the evictions it calls for, no other record by any. */
  ghost predicate LoadsRight(s: Store, ops: seq<Op>, evictions: seq<seq<Event>>, maxBytes: nat) {
    && |evictions| == |ops|
    && forall n :: 0 <= n < |ops| ==>
         if ops[n].OpInsert? then
           EvictsRight(Apply(Woven(s, ops[..n], evictions[..n]), ops[n]), evictions[n], maxBytes)
         else evictions[n] == []
  }

  lemma NothingWoven(s: Store, maxBytes: nat)
    ensures LoadsRight(s, [], [], maxBytes) && Woven(s, [], []) == s
  {
  }

  lemma WovenOneMore(s: Store, ops: seq<Op>, evictions: seq<seq<Event>>, op: Op, evicted: seq<Event>, maxBytes: nat)
    requires LoadsRight(s, ops, evictions, maxBytes)
    requires if op.OpInsert? then EvictsRight(Apply(Woven(s, ops, evictions), op), evicted, maxBytes)
             else evicted == []
    ensures LoadsRight(s, ops + [op], evictions + [evicted], maxBytes)
    ensures Woven(s, ops + [op], evictions + [evicted]) ==
            Run(Apply(Woven(s, ops, evictions), op), Removals(evicted))
  {
    hide EvictsRight, Apply, Run, Removals;
    var ops', ev' := ops + [op], evictions + [evicted];
    forall n | 0 <= n < |ops'|
      ensures if ops'[n].OpInsert? then EvictsRight(Apply(Woven(s, ops'[..n], ev'[..n]), ops'[n]), ev'[n], maxBytes)
              else ev'[n] == []
    {
      if n < |ops| {
        assert ops'[..n] == ops[..n] && ev'[..n] == evictions[..n];
      } else {
        assert ops'[..n] == ops && ev'[..n] == evictions;
      }
    }
    assert ops'[..|ops|] == ops && ev'[..|ops|] == evictions;
  }

  lemma {:induction false} WovenAppend(s: Store, a: seq<Op>, evA: seq<seq<Event>>, b: seq<Op>, evB: seq<seq<Event>>,
                                       maxBytes: nat)
    requires LoadsRight(s, a, evA, maxBytes) && |evB| == |b|
    requires LoadsRight(Woven(s, a, evA), b, evB, maxBytes)
    ensures LoadsRight(s, a + b, evA + evB, maxBytes)
    ensures Woven(s, a + b, evA + evB) == Woven(Woven(s, a, evA), b, evB)
    decreases |b|
  {
    hide EvictsRight, Apply, Run, Removals;
    if b == [] {
      assert a + b == a && evA + evB == evA;
    } else {
      var n := |b| - 1;
      var mid := Woven(s, a, evA);
      LoadsPrefix(mid, b, evB, n, maxBytes);
      WovenAppend(s, a, evA, b[..n], evB[..n], maxBytes);
      WovenOneMore(s, a + b[..n], evA + evB[..n], b[n], evB[n], maxBytes);
      assert a + b == a + b[..n] + [b[n]] && evA + evB == evA + evB[..n] + [evB[n]];
    }
  }

  lemma LoadsPrefix(s: Store, ops: seq<Op>, evictions: seq<seq<Event>>, n: nat, maxBytes: nat)
    requires LoadsRight(s, ops, evictions, maxBytes) && n <= |ops|
    ensures LoadsRight(s, ops[..n], evictions[..n], maxBytes)
  {
    hide EvictsRight, Apply, Woven;
    forall m | 0 <= m < n ensures ops[..n][..m] == ops[..m] && evictions[..n][..m] == evictions[..m] {}
  }

  // ---------------------------------------------------------------- when nothing is evicted

  ghost function InsertedEvents(ops: seq<Op>): set<Event> {
    set n | 0 <= n < |ops| && ops[n].OpInsert? :: ops[n].e
  }

  lemma {:induction false} OnlyInsertedIsLive(ops: seq<Op>)
    ensures Live(Run(EMPTY, ops)) <= InsertedEvents(ops)
  {
    if ops != [] {
      var n := |ops| - 1;
      OnlyInsertedIsLive(ops[..n]);
      assert InsertedEvents(ops[..n]) <= InsertedEvents(ops) by {
        forall e | e in InsertedEvents(ops[..n]) ensures e in InsertedEvents(ops) {
          var m :| 0 <= m < n && ops[..n][m].OpInsert? && ops[..n][m].e == e;
          assert ops[m].OpInsert? && ops[m].e == e;
        }
      }
      ApplyAddsOnlyItsEvent(Run(EMPTY, ops[..n]), ops[n]);
    }
  }

  lemma ApplyAddsOnlyItsEvent(s: Store, op: Op)
    ensures forall e :: e in Live(Apply(s, op)) ==> e in Live(s) || (op.OpInsert? && e == op.e)
  {
    hide SlotOf, Bury, Accepts;
  }

  /** If the events in the files fit the threshold together, loading evicts nothing. */
  lemma {:induction false} FittingFilesAreKept(ops: seq<Op>, evictions: seq<seq<Event>>, maxBytes: nat)
    requires LoadsRight(EMPTY, ops, evictions, maxBytes)
    requires maxBytes * 90 / 100 == 0 || SetBytes(InsertedEvents(ops)) <= maxBytes * 90 / 100
    ensures Woven(EMPTY, ops, evictions) == Run(EMPTY, ops)
    ensures forall n :: 0 <= n < |ops| ==> evictions[n] == []
  {
    hide Apply, SetBytes;
    if ops != [] {
      var n := |ops| - 1;
      LoadsPrefix(EMPTY, ops, evictions, n, maxBytes);
      PrefixInsertsLess(ops, n);
      FittingFilesAreKept(ops[..n], evictions[..n], maxBytes);
      assert forall m :: 0 <= m < n ==> evictions[..n][m] == evictions[m];
      OnlyInsertedIsLive(ops);
      SetBytesSubset(Live(Run(EMPTY, ops)), InsertedEvents(ops));
      assert evictions[n] == [];
      assert Removals([]) == [];
    }
  }

  lemma PrefixInsertsLess(ops: seq<Op>, n: nat)
    requires n <= |ops|
    ensures SetBytes(InsertedEvents(ops[..n])) <= SetBytes(InsertedEvents(ops))
  {
    forall e | e in InsertedEvents(ops[..n]) ensures e in InsertedEvents(ops) {
      var m :| 0 <= m < n && ops[..n][m].OpInsert? && ops[..n][m].e == e;
      assert ops[m].OpInsert? && ops[m].e == e;
    }
    SetBytesSubset(InsertedEvents(ops[..n]), InsertedEvents(ops));
  }

  /** Everything the files hold, in the order recovery reads it. */
  function FileRecords(parse: Wal.Parser, f: Checkpoint.Files): seq<Op> {
    Inserts(Snapshots.ReadSnapshot(parse, f.snapshot)) + Checkpoint.ReadRotated(parse, f)
    + Checkpoint.ReadLog(parse, f.wal)
  }

  lemma RecoverRunsTheFiles(parse: Wal.Parser, f: Checkpoint.Files)
    ensures Checkpoint.Recover(parse, f) == Run(EMPTY, FileRecords(parse, f))
  {
    hide Run, Snapshots.ReadSnapshot, Checkpoint.ReadRotated, Checkpoint.ReadLog;
    var a, b, c := Inserts(Snapshots.ReadSnapshot(parse, f.snapshot)), Checkpoint.ReadRotated(parse, f),
                   Checkpoint.ReadLog(parse, f.wal);
    Wal.RunAppend(EMPTY, a, b);
    Wal.RunAppend(EMPTY, a + b, c);
  }

  /** A load under a limit that the files' distinct events fit is the recovery without one. */
  lemma LoadsAllThatFits(parse: Wal.Parser, f: Checkpoint.Files, evictions: seq<seq<Event>>, maxBytes: nat)
    requires LoadsRight(EMPTY, FileRecords(parse, f), evictions, maxBytes)
    requires maxBytes * 90 / 100 == 0 || SetBytes(InsertedEvents(FileRecords(parse, f))) <= maxBytes * 90 / 100
    ensures Woven(EMPTY, FileRecords(parse, f), evictions) == Checkpoint.Recover(parse, f)
  {
    hide FileRecords, Woven, Run, SetBytes, LoadsRight, Checkpoint.Recover;
    FittingFilesAreKept(FileRecords(parse, f), evictions, maxBytes);
    RecoverRunsTheFiles(parse, f);
  }

  /** Under a limit the store ends within the threshold. */
  lemma {:induction false} LoadsEndWithinThreshold(ops: seq<Op>, evictions: seq<seq<Event>>, maxBytes: nat)
    requires LoadsRight(EMPTY, ops, evictions, maxBytes) && maxBytes * 90 / 100 > 0
    ensures Weight(Woven(EMPTY, ops, evictions)) <= maxBytes * 90 / 100
  {
    hide Apply, SetBytes, Run;
    if ops != [] {
      var n := |ops| - 1;
      LoadsPrefix(EMPTY, ops, evictions, n, maxBytes);
      LoadsEndWithinThreshold(ops[..n], evictions[..n], maxBytes);
      var s := Woven(EMPTY, ops[..n], evictions[..n]);
      assert evictions[n][..|evictions[n]|] == evictions[n];
      if evictions[n] == [] { NoRemovals(Apply(s, ops[n])); }
      if !ops[n].OpInsert? {
        ApplyAddsOnlyItsEvent(s, ops[n]);
        SetBytesSubset(Live(Apply(s, ops[n])), Live(s));
      }
    } else {
      EmptyWeighsZero();
    }
  }

  lemma EmptyWeighsZero()
    ensures Weight(EMPTY) == 0
  {
    assert Live(EMPTY) == {};
  }

  lemma NoRemovals(s: Store)
    ensures Run(s, Removals([])) == s
  {
    assert Removals([]) == [];
  }
}
