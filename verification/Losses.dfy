/** Runs of the crash machine that lose events: what the premises of crash safety rule out
    (src/store/wal.rs:128-145; src/store/mod.rs:678-681, 913-923). */
module Losses {
  import opened Events
  import opened StoreSpec
  import opened Replays
  import opened Checkpoint
  import opened Crashes
  import Snapshots
  import Wal

  // ---------------------------------------------------------------- runs that lose events

  lemma PublishedIsLive(e: Event)
    requires !IsEphemeral(e)
    ensures Do(EMPTY, Publish(e)) == Store(map[SlotOf(e) := e], [])
    ensures Records(EMPTY, Publish(e)) == [OpInsert(e)]
    ensures Live(Do(EMPTY, Publish(e))) == {e}
  {
  }

  lemma JustPublished(cat: Catalogue, parse: Wal.Parser, e: Event)
    requires Genuine(cat, e) && !IsEphemeral(e)
    ensures var y := After(parse, [Perform(Publish(e))]);
            && Possible(cat, parse, [Perform(Publish(e))])
            && y.mem == Do(EMPTY, Publish(e)) && y.phase.Resting? && y.files.snapshot == []
            && y.h.listed == [] && y.h.prior == [] && y.h.log == [OpInsert(e)] && y.h.tail == []
            && !y.h.exposed && Intact(y)
    ensures Storable(parse, e) ==> AllStorable(parse, [Perform(Publish(e))])
  {
    hide Do, Records, LogBytes, Storable;
    StartOfRun(cat, parse);
    PublishedIsLive(e);
    assert [] + [Perform(Publish(e))] == [Perform(Publish(e))];
    AfterOneMore(cat, parse, [], Perform(Publish(e)));
    assert [] + [OpInsert(e)] == [OpInsert(e)];
  }

  lemma EmptyFilesRecoverNothing(cat: Catalogue, parse: Wal.Parser, y: System)
    requires AllGood(parse, y) && OnDisk(y) && Intact(y)
    requires y.h.listed == [] && y.h.prior == [] && y.h.log == [] && y.h.tail == []
    ensures Recover(parse, y.files) == EMPTY
  {
    hide Storable, ReadLog, Recover;
    NothingTorn();
    assert y.files.(wal := y.files.wal + []) == y.files by { assert y.files.wal + [] == y.files.wal; }
    assert y.h.tail + [] == [] && y.h.prior + y.h.log == [];
    FilesReadBack(parse, y, []);
  }

  /** Rotating again before a snapshot was written overwrites the only copy of a segment: the run
      publishes an event, fails to write the snapshot of one checkpoint, begins another, and
      crashes. */
  lemma SecondRotationLosesEvents(cat: Catalogue, parse: Wal.Parser, e: Event) returns (actions: seq<Action>)
    requires Genuine(cat, e) && !IsEphemeral(e) && Storable(parse, e)
    ensures Possible(cat, parse, actions) && AllStorable(parse, actions)
    ensures var y := After(parse, actions);
            Intact(y) && y.h.exposed && e in Live(y.mem) && Live(Recover(parse, y.files)) == {}
  {
    hide Do, Records, LogBytes, Storable, Recover, After, Possible, Applied, AllStorable;
    JustPublished(cat, parse, e);
    PublishedIsLive(e);
    var a1 := [Perform(Publish(e))];
    AfterOneMore(cat, parse, a1, Rotate);
    AfterOneMore(cat, parse, a1 + [Rotate], Rotate);
    actions := a1 + [Rotate] + [Rotate];
    ReachableKeepsInv(cat, parse, actions);
    EmptyFilesRecoverNothing(cat, parse, After(parse, actions));
  }

  /** Recovery removes the rotated segment before its own checkpoint has written a snapshot: a
      second crash in between loses what only that segment held. */
  lemma RemovingOldTooSoonLosesEvents(cat: Catalogue, parse: Wal.Parser, e: Event) returns (actions: seq<Action>)
    requires Genuine(cat, e) && !IsEphemeral(e) && Storable(parse, e)
    ensures Possible(cat, parse, actions) && AllStorable(parse, actions)
    ensures var y := After(parse, actions);
            Intact(y) && y.h.exposed && e in Live(y.mem) && Live(Recover(parse, y.files)) == {}
  {
    hide Do, Records, LogBytes, Storable, Recover, After, Possible, Applied, AllStorable, Wal.Encode, Inv, ReadsGenuine,
      ReadsStorable, AllGood, OnDisk;
    JustPublished(cat, parse, e);
    PublishedIsLive(e);
    var next := NothingCut();
    var a1 := [Perform(Publish(e))];
    var a2 := a1 + [Rotate];
    var y := After(parse, a2);
    AfterOneMore(cat, parse, a1, Rotate);
    ReachableKeepsInv(cat, parse, a2);
    LoadingIsGenuine(cat, parse, y, next, 0);
    AfterOneMore(cat, parse, a2, Restart(next, 0));
    actions := a2 + [Restart(next, 0)];
    ReachableKeepsInv(cat, parse, actions);
    CalmAfterOne(parse, e, a1, a2);
    CrashSafety(cat, parse, a2, y, next, 0);
    FilesAreEmpty(cat, parse, After(parse, actions));
  }

  lemma FilesAreEmpty(cat: Catalogue, parse: Wal.Parser, y: System)
    requires Inv(cat, parse, y) && Intact(y)
    requires y.h.listed == [] && y.h.prior == [] && y.h.log == [] && y.h.tail == []
    ensures Recover(parse, y.files) == EMPTY
  {
    hide Tracks;
    EmptyFilesRecoverNothing(cat, parse, y);
  }

  lemma CalmAfterOne(parse: Wal.Parser, e: Event, a1: seq<Action>, a2: seq<Action>)
    requires a1 == [Perform(Publish(e))] && a2 == a1 + [Rotate]
    ensures After(parse, a2).h.calm
  {
    CalmWithoutEvictions(parse, a2);
  }

  /** An event whose payload holds a line feed is lost by a completed checkpoint: it is in the
      snapshot, but no line of it reads back as that event. */
  lemma LineFeedLosesTheEvent(cat: Catalogue, parse: Wal.Parser, e: Event) returns (actions: seq<Action>)
    requires Genuine(cat, e) && !IsEphemeral(e) && Snapshots.KeepsPayload(parse) && Snapshots.LF in e.raw
    ensures Possible(cat, parse, actions)
    ensures var y := After(parse, actions);
            Intact(y) && !y.h.exposed && e in Live(y.mem) && e !in Live(Recover(parse, y.files))
  {
    hide Do, Records, LogBytes, After, Possible, Snapshots.ReadSnapshot;
    JustPublished(cat, parse, e);
    PublishedIsLive(e);
    var a1 := [Perform(Publish(e))];
    var a2 := a1 + [Rotate];
    var a3 := a2 + [WriteSnapshot([e])];
    AfterOneMore(cat, parse, a1, Rotate);
    AfterOneMore(cat, parse, a2, WriteSnapshot([e]));
    AfterOneMore(cat, parse, a3, RemoveOld);
    actions := a3 + [RemoveOld];
    var y := After(parse, actions);
    var events := Snapshots.ReadSnapshot(parse, y.files.snapshot);
    Snapshots.LineFeedIsNeverReadBack(parse, y.files.snapshot, e);
    assert ReadLog(parse, []) == [];
    if e in Live(LoadSnapshot(events)) { ReplayInventsNothing(EMPTY, Inserts(events), e); }
  }

  /** A restart that finds only torn bytes leaves them at the head of the log; then the next event
      published, whichever it is, does not survive the next crash. */
  lemma TornHeadLosesTheNextEvent(cat: Catalogue, parse: Wal.Parser, actions: seq<Action>, a: Action, e: Event)
    requires Possible(cat, parse, actions + [a]) && AllStorable(parse, actions + [a])
    requires !After(parse, actions + [a]).h.spoiled && FindsOnlyTornBytes(parse, After(parse, actions), a)
    requires Genuine(cat, e) && !IsEphemeral(e) && Snapshots.KeepsPayload(parse) && Wal.Plain(e.raw)
    ensures var run := actions + [a] + [Perform(Publish(e))];
            && Possible(cat, parse, run)
            && e in Live(After(parse, run).mem)
            && e !in Live(Recover(parse, After(parse, run).files))
  {
    hide Storable, Recover, Applied, CutOff, Run, After, Possible, AllStorable, Do, Records, LogBytes, Torn,
      ReadsGenuine, ReadsStorable;
    var y := After(parse, actions + [a]);
    AfterOneMore(cat, parse, actions, a);
    AfterOneMore(cat, parse, actions + [a], Perform(Publish(e)));
    ReachableKeepsInv(cat, parse, actions + [a]);
    NothingApplied(cat, parse, actions, a);
    PublishedIsLive(e);
    TornHeadHides(parse, y.files, y.h.tail, e);
  }

  lemma NothingApplied(cat: Catalogue, parse: Wal.Parser, actions: seq<Action>, a: Action)
    requires Possible(cat, parse, actions + [a]) && AllStorable(parse, actions + [a])
    requires !After(parse, actions + [a]).h.spoiled && FindsOnlyTornBytes(parse, After(parse, actions), a)
    ensures var y := After(parse, actions + [a]);
            && y.mem == EMPTY && y.phase.Resting? && y.h.tail != [] && Torn(y.h.tail)
            && y.files == Files([], None, y.h.tail)
  {
    hide Storable, Run, After, Possible, AllStorable, Do, Records, Recover, ReadLog, Applied, AllGood, Tracks, CutOff,
      Torn, LogBytes, LoadSnapshot, Wal.Encode, Snapshots.ReadSnapshot, ReadRotated, ReadsGenuine, ReadsStorable;
    var z := After(parse, actions);
    AfterOneMore(cat, parse, actions, a);
    ReachableKeepsInv(cat, parse, actions);
    CutIsTorn(z.h.tail, a.next, a.n);
    FilesReadBack(parse, z, CutOff(a.next, a.n));
    assert z.h.listed == [] && z.h.prior == [] && z.h.log == [];
    assert z.h.prior + z.h.log == [];
    LogBytesAppend([], []);
    NothingRuns();
    assert [] + z.h.tail == z.h.tail;
  }

  lemma NothingRuns()
    ensures LoadSnapshot([]) == EMPTY && Run(EMPTY, []) == EMPTY
  {
  }

  lemma TornHeadHides(parse: Wal.Parser, f: Files, tail: Bytes, e: Event)
    requires f == Files([], None, tail) && tail != [] && Torn(tail) && Snapshots.KeepsPayload(parse) && Wal.Plain(e.raw)
    ensures e !in Live(Recover(parse, f.(wal := f.wal + LogBytes([OpInsert(e)]))))
  {
    hide Wal.Encode, Wal.Replay;
    var next, n: nat :| Wal.Fits(next) && n < |Wal.Encode(next)| && tail == CutOff(next, n);
    assert ToWalAll([OpInsert(e)]) == [Wal.Insert(e.raw)];
    assert [Wal.Insert(e.raw)][1..] == [];
    assert LogBytes([OpInsert(e)]) == Wal.Encode(Wal.Insert(e.raw)) + Wal.EncodeAll([]);
    var wal := tail + Wal.Encode(Wal.Insert(e.raw));
    assert f.wal + LogBytes([OpInsert(e)]) == wal;
    Wal.TornHeadHidesTheNext(next, n, e.raw);
    Wal.NothingToReplay();
    var r := Recover(parse, f.(wal := wal));
    assert Snapshots.ReadSnapshot(parse, []) == [] && ReadLog(parse, []) == [];
    if e in Live(r) {
      ReplayInventsNothing(EMPTY, ReadLog(parse, wal), e);
      MeaningsFromSome(parse, Wal.Replay(wal).ops, e);
    }
  }

  lemma {:induction false} MeaningsFromSome(parse: Wal.Parser, ops: seq<Wal.WalOp>, e: Event)
    requires OpInsert(e) in Wal.Meanings(parse, ops)
    ensures exists i :: 0 <= i < |ops| && ops[i].Insert? && parse(ops[i].data) == Some(e)
  {
    var n := |ops| - 1;
    if OpInsert(e) in Wal.Meanings(parse, ops[..n]) {
      MeaningsFromSome(parse, ops[..n], e);
      var i :| 0 <= i < n && ops[..n][i].Insert? && parse(ops[..n][i].data) == Some(e);
      assert ops[i].Insert?;
    } else {
      assert OpInsert(e) in Wal.Meaning(parse, ops[n]);
    }
  }

  /** Such a run exists: the first record ever is cut off after its first byte. */
  lemma TornHeadRun(cat: Catalogue, parse: Wal.Parser, x: Id, e: Event)
    requires Genuine(cat, e) && !IsEphemeral(e) && Snapshots.KeepsPayload(parse) && Wal.Plain(e.raw)
    ensures var run := [Restart(Wal.Delete(x), 1)] + [Perform(Publish(e))];
            && Possible(cat, parse, run)
            && e in Live(After(parse, run).mem) && e !in Live(Recover(parse, After(parse, run).files))
  {
    hide Storable, Recover, After, Possible, AllStorable, Do, Records, LogBytes, Torn, Inv, ReadsGenuine, ReadsStorable;
    var a := Restart(Wal.Delete(x), 1);
    assert [] + [a] == [a];
    StartOfRun(cat, parse);
    InitialInv(cat, parse);
    LoadingIsGenuine(cat, parse, INITIAL, a.next, a.n);
    AfterOneMore(cat, parse, [], a);
    assert AllGood(parse, INITIAL) && OnDisk(INITIAL) by { InvMeans(cat, parse, INITIAL); }
    CutIsTorn([], a.next, a.n);
    FilesReadBack(parse, INITIAL, CutOff(a.next, a.n));
    TornHeadLosesTheNextEvent(cat, parse, [], a, e);
  }

  lemma InvMeans(cat: Catalogue, parse: Wal.Parser, y: System)
    requires Inv(cat, parse, y)
    ensures AllGood(parse, y) && OnDisk(y) && (!y.h.spoiled ==> Torn(y.h.tail))
  {
  }

  // ---------------------------------------------------------------- power loss

  /** A power loss takes the records after the last sync. If a snapshot was written after them, what
      is left of the log is replayed over a state that is later than it: an event published and
      deleted before the snapshot comes back with the record of its publication. */
  lemma SnapshotOutrunsTheLog(cat: Catalogue, parse: Wal.Parser, e: Event) returns (actions: seq<Action>, kept: Bytes)
    requires Genuine(cat, e) && !IsEphemeral(e) && Storable(parse, e)
    ensures Possible(cat, parse, actions) && AllStorable(parse, actions)
    ensures var y := After(parse, actions);
            && !y.h.exposed && Intact(y) && e.id in y.mem.tombs && Live(y.mem) == {}
            && kept <= y.files.wal && e in Live(Recover(parse, y.files.(wal := kept)))
  {
    hide LogBytes, Storable, Recover, After, Possible, AllStorable, Applied, AllGood, OnDisk, Run;
    StartOfRun(cat, parse);
    var y0 := INITIAL;
    AfterOneMore(cat, parse, [], Rotate);
    var a1 := [] + [Rotate];
    PublishedIsLive(e);
    AfterOneMore(cat, parse, a1, Perform(Publish(e)));
    var a2 := a1 + [Perform(Publish(e))];
    var y2 := After(parse, a2);
    assert y2.h.log == [OpInsert(e)] by { assert [] + [OpInsert(e)] == [OpInsert(e)]; }
    RetractedAtOnce(e);
    AfterOneMore(cat, parse, a2, Perform(Retract(e.id)));
    var a3 := a2 + [Perform(Retract(e.id))];
    AfterOneMore(cat, parse, a3, WriteSnapshot([]));
    actions := a3 + [WriteSnapshot([])];
    var y := After(parse, actions);
    kept := LogBytes([OpInsert(e)]);
    ReachableKeepsInv(cat, parse, actions);
    ReachableKeepsInv(cat, parse, a2);
    assert y.files.wal == y2.files.wal + LogBytes([OpDelete(e.id)]);
    InvMeans(cat, parse, y2);
    assert y2.files.wal == kept by { KeptBytes(y2, e); }
    OneRecordRecovers(parse, y.files.(wal := kept), e);
  }

  lemma RetractedAtOnce(e: Event)
    ensures var s := Store(map[SlotOf(e) := e], []);
            && Holds(s, e.id) && Do(s, Retract(e.id)) == Store(map[], [e.id])
            && Records(s, Retract(e.id)) == [OpDelete(e.id)]
  {
    var s := Store(map[SlotOf(e) := e], []);
    assert SlotOf(e) in s.slots;
    assert Without(s.slots, e.id) == map[];
  }

  lemma KeptBytes(y: System, e: Event)
    requires OnDisk(y) && Intact(y) && y.h.log == [OpInsert(e)] && y.h.tail == []
    ensures y.files.wal == LogBytes([OpInsert(e)])
  {
    hide LogBytes;
    assert LogBytes([OpInsert(e)]) + [] == LogBytes([OpInsert(e)]);
  }

  lemma OneRecordRecovers(parse: Wal.Parser, f: Files, e: Event)
    requires Storable(parse, e) && f.snapshot == [] && f.wal == LogBytes([OpInsert(e)])
    requires f.rotated == None || f.rotated == Some([])
    ensures e in Live(Recover(parse, f))
  {
    hide LogBytes, Storable;
    NothingTorn();
    assert LogBytes([OpInsert(e)]) + [] == LogBytes([OpInsert(e)]);
    SegmentReadsBack(parse, [OpInsert(e)], []);
    assert Snapshots.ReadSnapshot(parse, []) == [] && ReadLog(parse, []) == [];
    Run1(EMPTY, OpInsert(e));
    assert Insert(EMPTY, e).slots[SlotOf(e)] == e;
  }

  // ---------------------------------------------------------------- a checkpoint inside a deletion

  /** The two halves of a deletion: the record, and the removal from memory. */
  function RecordOnly(y: System, id: Id): System {
    y.(files := y.files.(wal := y.files.wal + LogBytes([OpDelete(id)])))
  }

  function RemoveOnly(y: System, id: Id): System {
    y.(mem := Delete(y.mem, id))
  }

  /** Together they are the operation; but a checkpoint that completes between them removes the
      record while its snapshot still lists the event, and the event, deleted and buried in memory,
      comes back after a crash. */
  lemma CheckpointInsideADeletion(parse: Wal.Parser, e: Event)
    requires !IsEphemeral(e) && Storable(parse, e)
    ensures var y := AfterPerform(INITIAL, Publish(e));
            var whole, halves := AfterPerform(y, Retract(e.id)), RemoveOnly(RecordOnly(y, e.id), e.id);
            halves.mem == whole.mem && halves.files == whole.files
    ensures var y := RecordOnly(AfterPerform(INITIAL, Publish(e)), e.id);
            var z := RemoveOnly(AfterRemoveOld(AfterSnapshot(AfterRotate(y), [e])), e.id);
            && Lists([e], AfterRotate(y).mem)
            && e.id in z.mem.tombs && Live(z.mem) == {} && e in Live(Recover(parse, z.files))
  {
    hide LogBytes, Storable, Recover, Snapshots.ReadSnapshot;
    PublishedIsLive(e);
    RetractedAtOnce(e);
    ListedReadBack(parse, [e]);
    ListedRecovers(parse, Files(Snapshots.WriteLines(Snapshots.Payloads([e])), None, []), e);
  }

  lemma ListedRecovers(parse: Wal.Parser, f: Files, e: Event)
    requires Snapshots.ReadSnapshot(parse, f.snapshot) == [e] && f.rotated == None && f.wal == []
    ensures e in Live(Recover(parse, f))
  {
    hide Snapshots.ReadSnapshot;
    assert ReadLog(parse, []) == [];
    assert Inserts([e]) == [OpInsert(e)];
    Run1(EMPTY, OpInsert(e));
    assert Insert(EMPTY, e).slots[SlotOf(e)] == e;
  }
}
