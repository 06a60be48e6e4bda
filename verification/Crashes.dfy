/** What recovery makes of the files after a crash at any point of a run of the crash machine, and
    when its premises hold (src/store/mod.rs:380-383, 462-508, 691-742, 785-926). */
module Crashes {
  import opened Events
  import opened StoreSpec
  import opened Replays
  import opened Checkpoint
  import Wal

  // ---------------------------------------------------------------- crash safety

  /** Crash safety. At any point of any run at which memory holds nothing that only a lost segment
      held, and both segments are intact, let a crash cut off the next append anywhere.
      Recovery then holds every live event, or a version of its key that ranks before it; holds
      nothing that was deleted; and holds nothing that was not in memory since the oldest segment
      began. If that time was calm it holds exactly the live events. Of the tombstones it has the
      latest, one for every deletion since the oldest segment began, up to the bound. */
  lemma CrashSafety(cat: Catalogue, parse: Wal.Parser, actions: seq<Action>, y: System, next: Wal.WalOp, n: nat)
    requires Possible(cat, parse, actions) && AllStorable(parse, actions) && y == After(parse, actions)
    requires !y.h.exposed && Intact(y)
    requires Enabled(y, Restart(next, n)) && (y.h.tail == [] || CutOff(next, n) == [])
    ensures var r := Recover(parse, Crashed(y.files, next, n));
            && (y.h.calm ==> Live(r) == Live(y.mem))
            && (forall v :: v in Live(y.mem) ==>
                  exists w :: w in Live(r) && SlotOf(w) == SlotOf(v) && (w == v || Before(w, v)))
            && (forall v :: v in Live(y.mem) && !IsReplaceable(v) ==> v in Live(r))
            && (forall w :: w in Live(r) ==> w.id !in y.mem.tombs && w in y.h.held)
            && Tail(r.tombs, y.mem.tombs)
            && |r.tombs| == (var d := Deletes(y.h.prior + y.h.log); if d < MAX_TOMBSTONES then d else MAX_TOMBSTONES)
  {
    hide Storable, Recover, Applied, CutOff, Run, KeyOf, Before, AllGood, OnDisk, LoadSnapshot, Deletes;
    var r := CrashRecovers(cat, parse, actions, y, next, n);
    forall v | v in Live(y.mem)
      ensures exists w :: w in Live(r) && SlotOf(w) == SlotOf(v) && (w == v || Before(w, v))
      ensures !IsReplaceable(v) ==> v in Live(r)
    {
      var sl :| sl in y.mem.slots && y.mem.slots[sl] == v;
      assert AtLeast(At(r.slots, sl), At(y.mem.slots, sl));
      assert r.slots[sl] in Live(r) && SlotOf(r.slots[sl]) == sl;
    }
  }

  lemma CrashRecovers(cat: Catalogue, parse: Wal.Parser, actions: seq<Action>, y: System, next: Wal.WalOp, n: nat)
    returns (r: Store)
    requires Possible(cat, parse, actions) && AllStorable(parse, actions) && y == After(parse, actions)
    requires Intact(y) && Enabled(y, Restart(next, n)) && (y.h.tail == [] || CutOff(next, n) == [])
    ensures Wf(cat, y.mem) && Wf(cat, r)
    ensures r == Recover(parse, Crashed(y.files, next, n)) == Run(LoadSnapshot(y.h.listed), y.h.prior + y.h.log)
    ensures !y.h.exposed ==> Safe(LoadSnapshot(y.h.listed), y.h.prior + y.h.log, y.mem, y.h.calm, y.h.held)
    ensures TombsKept(y.h.prior + y.h.log, y.mem) && r.tombs == Run(EMPTY, y.h.prior + y.h.log).tombs
  {
    hide Storable, Recover, Applied, CutOff, Run, AllGood, OnDisk, LoadSnapshot, Wf, Safe, After, Possible, TombsKept,
      Chain;
    ReachableKeepsInv(cat, parse, actions);
    TailIsTorn(y);
    CutIsTorn(y.h.tail, next, n);
    FilesReadBack(parse, y, CutOff(next, n));
    LoadedIsBare(cat, y.h.listed);
    ChainMeans(cat, y.h.prior + y.h.log, y.mem, y.h.calm, y.h.held);
    r := Recover(parse, Crashed(y.files, next, n));
    BareReplay(cat, LoadSnapshot(y.h.listed), y.h.prior + y.h.log, y.mem);
  }

  /** Replayed tombstones still refuse: an event deleted since the oldest segment began, and
      still remembered when the crash came, is answered with `Deleted` after recovery. */
  lemma DeletionsSurviveRestart(cat: Catalogue, parse: Wal.Parser, actions: seq<Action>, y: System,
                                next: Wal.WalOp, n: nat, e: Event)
    requires Possible(cat, parse, actions) && AllStorable(parse, actions) && y == After(parse, actions)
    requires Intact(y) && Enabled(y, Restart(next, n)) && (y.h.tail == [] || CutOff(next, n) == [])
    requires OpDelete(e.id) in y.h.prior + y.h.log && e.id in y.mem.tombs
    ensures var r := Recover(parse, Crashed(y.files, next, n));
            InsertOutcome(r, e) == Deleted && Insert(r, e) == r && e !in Live(r)
  {
    hide Recover, Applied, CutOff, Run, After, Possible, LoadSnapshot;
    var r := CrashRecovers(cat, parse, actions, y, next, n);
  }

  function Checkpointed(listing: seq<Event>): seq<Action> {
    [Rotate, WriteSnapshot(listing), RemoveOld]
  }

  /** A completed checkpoint heals everything, whatever the run did before: the premises of crash
      safety hold again, and recovery gives exactly the live set. */
  lemma CheckpointHeals(cat: Catalogue, parse: Wal.Parser, actions: seq<Action>, listing: seq<Event>)
    requires Possible(cat, parse, actions) && AllStorable(parse, actions)
    requires Lists(listing, After(parse, actions).mem)
    ensures var run := actions + Checkpointed(listing);
            var y := After(parse, run);
            && Possible(cat, parse, run) && AllStorable(parse, run) && y.mem == After(parse, actions).mem
            && y.phase.Resting? && !y.h.exposed && Intact(y) && y.h.calm
            && y.h.prior + y.h.log == [] && y.h.tail == []
            && y.files == Files(Snapshots.WriteLines(Snapshots.Payloads(listing)), None, [])
  {
    hide Storable, Recover, Applied, Run, After, Possible, AllStorable, LoadSnapshot, Wal.Encode;
    var a1 := actions + [Rotate];
    var a2 := a1 + [WriteSnapshot(listing)];
    AfterOneMore(cat, parse, actions, Rotate);
    AfterOneMore(cat, parse, a1, WriteSnapshot(listing));
    AfterOneMore(cat, parse, a2, RemoveOld);
    assert actions + Checkpointed(listing) == a2 + [RemoveOld];
  }

  /** A completed checkpoint and a restart keep the live set and forget every tombstone: none is in
      the snapshot. */
  lemma CheckpointForgetsTombstones(cat: Catalogue, parse: Wal.Parser, actions: seq<Action>, listing: seq<Event>,
                                    next: Wal.WalOp)
    requires Possible(cat, parse, actions) && AllStorable(parse, actions) && Wal.Fits(next)
    requires Lists(listing, After(parse, actions).mem)
    ensures var run := actions + Checkpointed(listing) + [Restart(next, 0)];
            && Possible(cat, parse, run)
            && After(parse, run).mem.tombs == []
            && Live(After(parse, run).mem) == Live(After(parse, actions).mem)
  {
    hide Storable, Recover, Applied, Run, After, Possible, AllStorable, LoadSnapshot, Wal.Encode, Inv, ReadsGenuine,
      ReadsStorable;
    var run := actions + Checkpointed(listing);
    var y := After(parse, run);
    CheckpointHeals(cat, parse, actions, listing);
    assert CutOff(next, 0) == [];
    assert Enabled(y, Restart(next, 0));
    ReachableKeepsInv(cat, parse, run);
    LoadingIsGenuine(cat, parse, y, next, 0);
    AfterOneMore(cat, parse, run, Restart(next, 0));
    CrashSafety(cat, parse, run, y, next, 0);
  }

  // ---------------------------------------------------------------- when the premises hold

  /** A restart that applies nothing although the log holds torn bytes. */
  ghost predicate FindsOnlyTornBytes(parse: Wal.Parser, y: System, a: Action) {
    && a.Restart?
    && y.h.tail + CutOff(a.next, a.n) != []
    && !Applied(parse, Crashed(y.files, a.next, a.n))
  }

  ghost predicate NeverOnlyTornBytes(parse: Wal.Parser, actions: seq<Action>) {
    forall i :: 0 <= i < |actions| ==> !FindsOnlyTornBytes(parse, After(parse, actions[..i]), actions[i])
  }

  /** Nothing is ever appended after torn bytes unless a restart found only torn bytes: any other
      restart checkpoints before it serves clients, and that starts a fresh log. */
  lemma {:induction false} SpoiledOnlyByTornHeads(cat: Catalogue, parse: Wal.Parser, actions: seq<Action>)
    requires Possible(cat, parse, actions) && NeverOnlyTornBytes(parse, actions)
    ensures var y := After(parse, actions); Intact(y) && (y.h.tail != [] ==> y.phase.Loaded?)
  {
    hide Applied, Recover, Do, Records, LogBytes;
    if actions != [] {
      var k := |actions| - 1;
      var before, a := actions[..k], actions[k];
      forall i | 0 <= i < k ensures !FindsOnlyTornBytes(parse, After(parse, before[..i]), before[i]) {
        assert before[..i] == actions[..i];
      }
      SpoiledOnlyByTornHeads(cat, parse, before);
      assert !FindsOnlyTornBytes(parse, After(parse, before), a);
    }
  }

  ghost predicate NoEvictionsIn(actions: seq<Action>) {
    forall i :: 0 <= i < |actions| && actions[i].Perform? ==> !actions[i].m.Evict?
  }

  /** No restart came while memory held what the files do not, or misread a segment. */
  ghost predicate RestartsInGoodOrder(parse: Wal.Parser, actions: seq<Action>) {
    forall i :: 0 <= i < |actions| && actions[i].Restart? ==>
      var y := After(parse, actions[..i]);
      !y.h.exposed && !Misreads(y, CutOff(actions[i].next, actions[i].n))
  }

  /** A run without evictions whose restarts came in good order is calm throughout. */
  lemma {:induction false} CalmWithoutEvictions(parse: Wal.Parser, actions: seq<Action>)
    requires NoEvictionsIn(actions) && RestartsInGoodOrder(parse, actions)
    ensures After(parse, actions).h.calm && After(parse, actions).h.calmNow
  {
    hide Applied, Recover, Do, Records, LogBytes, CutOff;
    if actions != [] {
      var k := |actions| - 1;
      var before := actions[..k];
      forall i | 0 <= i < k && before[i].Restart?
        ensures var y := After(parse, before[..i]);
                !y.h.exposed && !Misreads(y, CutOff(before[i].next, before[i].n))
      {
        assert before[..i] == actions[..i] && before[i] == actions[i];
      }
      CalmWithoutEvictions(parse, before);
    }
  }

  // ---------------------------------------------------------------- a crash inside an operation

  /** On replay the first record of an operation does all its work. */
  lemma SomeRecords(cat: Catalogue, mem: Store, r: Store, m: MemOp, written: nat)
    requires Wf(cat, mem) && Wf(cat, r) && Tail(r.tombs, mem.tombs)
    requires m.Publish? ==> Genuine(cat, m.e)
    requires written <= |Records(mem, m)|
    ensures Run(r, Records(mem, m)[..written]) == if written == 0 then r else Run(r, Records(mem, m))
  {
    var records := Records(mem, m);
    if written == 0 {
      assert records[..0] == [];
    } else if written == |records| {
      assert records[..written] == records;
    } else {
      assert records[..1] == [records[0]];
      Run1(r, records[0]);
      PublishOnReplay(cat, mem, r, m.e);
    }
  }

  /** A crash in the middle of an operation leaves some of its records unwritten and one cut off.
      Recovery then stands to the store before the operation, or to the store after it, as it
      would without the interruption. */
  lemma TornOperation(cat: Catalogue, parse: Wal.Parser, actions: seq<Action>, y: System, m: MemOp, written: nat,
                      cut: Bytes)
    requires Possible(cat, parse, actions) && AllStorable(parse, actions) && y == After(parse, actions)
    requires !y.h.exposed && Intact(y) && y.h.tail == [] && Torn(cut)
    requires m.Publish? ==> Genuine(cat, m.e) && Storable(parse, m.e)
    requires written <= |Records(y.mem, m)|
    ensures var r := Recover(parse, y.files.(wal := y.files.wal + LogBytes(Records(y.mem, m)[..written]) + cut));
            && (Covers(y.mem, r) || Covers(Do(y.mem, m), r))
            && (y.h.calm && !m.Evict? ==> r.slots == y.mem.slots || r.slots == Do(y.mem, m).slots)
  {
    hide Storable, Recover, Applied, CutOff, Run, Wf, After, Possible, Covers, Do, Torn, LoadSnapshot, LogBytes,
      Wal.Encode, Records;
    var records := Records(y.mem, m)[..written];
    var x, log := LoadSnapshot(y.h.listed), y.h.prior + y.h.log;
    var some := NothingCut();
    var r := CrashRecovers(cat, parse, actions, y, some, 0);
    ReachableKeepsInv(cat, parse, actions);
    PartlyWritten(parse, y, m, written, cut);
    Wal.RunAppend(x, log, records);
    assert y.h.prior + (y.h.log + records) == log + records;
    SomeRecords(cat, y.mem, r, m, written);
    StepCovers(cat, y.mem, r, m);
  }

  lemma NothingCut() returns (next: Wal.WalOp)
    ensures Wal.Fits(next) && 0 < |Wal.Encode(next)| && CutOff(next, 0) == []
  {
    next := Wal.Delete(seq(32, i => 0));
  }

  /** The files with part of an operation appended. */
  lemma PartlyWritten(parse: Wal.Parser, y: System, m: MemOp, written: nat, cut: Bytes)
    requires AllGood(parse, y) && OnDisk(y) && Intact(y) && y.h.tail == [] && Torn(cut)
    requires (m.Publish? ==> Storable(parse, m.e)) && written <= |Records(y.mem, m)|
    ensures var records := Records(y.mem, m)[..written];
            Recover(parse, y.files.(wal := y.files.wal + LogBytes(records) + cut)) ==
            Run(LoadSnapshot(y.h.listed), y.h.prior + (y.h.log + records))
  {
    hide Storable, Recover, Applied, Run, Torn, LoadSnapshot, LogBytes, ReadLog, Live, Bury, Before, KeyOf;
    var records := Records(y.mem, m)[..written];
    var z := y.(files := y.files.(wal := y.files.wal + LogBytes(records)), h := y.h.(log := y.h.log + records));
    assert Writable(parse, Records(y.mem, m));
    assert Writable(parse, z.h.log);
    LogBytesAppend(y.h.log, records);
    assert z.files.wal == LogBytes(z.h.log) + [] by {
      assert y.files.wal == LogBytes(y.h.log) + [] == LogBytes(y.h.log);
    }
    assert z.h.tail + cut == cut;
    FilesReadBack(parse, z, cut);
  }

  // ---------------------------------------------------------------- power loss

  function Performs(ms: seq<MemOp>): seq<Action> {
    seq(|ms|, i requires 0 <= i < |ms| => Perform(ms[i]))
  }

  /** A prefix of a log's bytes is some whole records and part of the next. */
  lemma LogPrefix(parse: Wal.Parser, ops: seq<Op>, n: nat) returns (written: nat, cut: Bytes)
    requires Writable(parse, ops) && n <= |LogBytes(ops)|
    ensures written <= |ops| && Torn(cut) && LogBytes(ops)[..n] == LogBytes(ops[..written]) + cut
  {
    hide Wal.Encode, Wal.EncodeAll, Wal.WholeWithin;
    var all := ToWalAll(ops);
    written := Wal.WholeWithin(all, n);
    Wal.WholeWithinIsMaximal(all, n);
    assert all[..written] == ToWalAll(ops[..written]);
    assert all == all[..written] + all[written..];
    Wal.EncodeAllAppend(all[..written], all[written..]);
    var whole := Wal.EncodeAll(all[..written]);
    cut := Wal.EncodeAll(all[written..])[..n - |whole|];
    assert LogBytes(ops)[..n] == whole + cut;
    if written == |ops| {
      assert all[written..] == [];
      Wal.NextRecordLeads([Wal.Delete(seq(32, i => 0))], 0);
      NothingTorn();
      assert cut == [];
    } else {
      Wal.NextRecordLeads(all, written);
      var next := all[written];
      assert Wal.Fits(next);
      assert cut == CutOff(next, n - |whole|);
    }
  }

  lemma PerformsOn(cat: Catalogue, parse: Wal.Parser, run: seq<Action>, ms: seq<MemOp>)
    requires ms != []
    ensures var before := run + Performs(ms[..|ms| - 1]);
            var m := ms[|ms| - 1];
            && run + Performs(ms) == before + [Perform(m)]
            && After(parse, run + Performs(ms)) == AfterPerform(After(parse, before), m)
            && (Possible(cat, parse, run + Performs(ms)) ==>
                  Possible(cat, parse, before) && (m.Publish? ==> Genuine(cat, m.e)))
            && (AllStorable(parse, run + Performs(ms)) ==>
                  AllStorable(parse, before) && (m.Publish? ==> Storable(parse, m.e)))
  {
    hide After, Possible, AllStorable, Storable;
    var before, m := run + Performs(ms[..|ms| - 1]), ms[|ms| - 1];
    assert run + Performs(ms) == before + [Perform(m)];
    AfterOneMore(cat, parse, before, Perform(m));
  }

  /** While only operations are performed, the other files stay and the log grows. */
  lemma {:induction false} PerformsKeep(cat: Catalogue, parse: Wal.Parser, run: seq<Action>, ms: seq<MemOp>)
    ensures var y, z := After(parse, run), After(parse, run + Performs(ms));
            && z.files == y.files.(wal := z.files.wal) && y.files.wal <= z.files.wal
            && z.h.exposed == y.h.exposed && z.h.tail == y.h.tail && (y.h.tail == [] && Intact(y) ==> Intact(z))
            && (z.h.calm ==> y.h.calm)
  {
    hide After, LogBytes, Records, Do, Possible, AllStorable, Storable;
    if ms == [] {
      assert run + Performs(ms) == run;
    } else {
      PerformsKeep(cat, parse, run, ms[..|ms| - 1]);
      PerformsOn(cat, parse, run, ms);
    }
  }

  /** What performing operations does to memory and log: exactly what they do one after the other. */
  lemma {:induction false} PerformsDo(cat: Catalogue, parse: Wal.Parser, run: seq<Action>, ms: seq<MemOp>)
    ensures var y, z := After(parse, run), After(parse, run + Performs(ms));
            && z.mem == DoAll(y.mem, ms) && z.phase == y.phase
            && z.files == y.files.(wal := y.files.wal + LogBytes(Log(y.mem, ms)))
  {
    hide After, LogBytes, Records, Do, Possible, AllStorable, Storable;
    var y := After(parse, run);
    LogBytesAppend([], []);
    if ms == [] {
      assert run + Performs(ms) == run;
    } else {
      var before, m := ms[..|ms| - 1], ms[|ms| - 1];
      PerformsDo(cat, parse, run, before);
      PerformsOn(cat, parse, run, ms);
      assert ms == before + [m];
      OneMore(y.mem, before, m);
      LogBytesAppend(Log(y.mem, before), Records(DoAll(y.mem, before), m));
      assert y.files.wal + LogBytes(Log(y.mem, ms)) ==
             y.files.wal + LogBytes(Log(y.mem, before)) + LogBytes(Records(DoAll(y.mem, before), m));
    }
  }

  /** Power loss. Since some moment only operations were performed, and up to that moment the log is
      synced. Whatever prefix of the log survives that reaches it, recovery stands to memory as it
      was before or after some one of those operations, as a crash inside it would have made it. */
  lemma {:induction false} PowerLoss(cat: Catalogue, parse: Wal.Parser, run: seq<Action>, ms: seq<MemOp>, n: nat)
    returns (j: nat)
    requires Possible(cat, parse, run + Performs(ms)) && AllStorable(parse, run + Performs(ms))
    requires var y := After(parse, run); !y.h.exposed && Intact(y) && y.h.tail == []
    requires |After(parse, run).files.wal| <= n <= |After(parse, run + Performs(ms)).files.wal|
    ensures j <= |ms|
    ensures var z := After(parse, run + Performs(ms));
            var r := Recover(parse, z.files.(wal := z.files.wal[..n]));
            var before, after := After(parse, run + Performs(ms[..j])).mem,
                                 After(parse, run + Performs(ms[..if j < |ms| then j + 1 else j])).mem;
            && (Covers(before, r) || Covers(after, r))
            && (z.h.calm ==> r.slots == before.slots || r.slots == after.slots)
  {
    hide After, LogBytes, Records, Do, Possible, AllStorable, Storable, Recover, Covers, Torn;
    var z := After(parse, run + Performs(ms));
    PerformsKeep(cat, parse, run, ms);
    if ms == [] {
      j := 0;
      assert run + Performs(ms) == run && ms[..0] == [];
      assert z.files.(wal := z.files.wal[..n]) == z.files;
      NoLoss(cat, parse, run, z);
    } else {
      var k := |ms| - 1;
      var before := run + Performs(ms[..k]);
      var y := After(parse, before);
      PerformsOn(cat, parse, run, ms);
      PerformsKeep(cat, parse, run, ms[..k]);
      if n <= |y.files.wal| {
        assert z.files.wal[..n] == y.files.wal[..n];
        j := PowerLoss(cat, parse, run, ms[..k], n);
        assert ms[..k][..j] == ms[..j];
        if j < k { assert ms[..k][..j + 1] == ms[..j + 1]; }
      } else {
        j := k;
        var records := Records(y.mem, ms[k]);
        RecordsAreWritable(parse, y.mem, ms[k]);
        var written, cut := LogPrefix(parse, records, n - |y.files.wal|);
        assert z.files.wal[..n] == y.files.wal + LogBytes(records[..written]) + cut;
        TornOperation(cat, parse, before, y, ms[k], written, cut);
        assert ms[..k + 1] == ms;
        CalmPerforms(y, ms[k]);
      }
    }
  }

  lemma CalmPerforms(y: System, m: MemOp)
    ensures AfterPerform(y, m).mem == Do(y.mem, m) && (AfterPerform(y, m).h.calm ==> y.h.calm && !m.Evict?)
  {
  }

  lemma RecordsAreWritable(parse: Wal.Parser, mem: Store, m: MemOp)
    requires m.Publish? ==> Storable(parse, m.e)
    ensures Writable(parse, Records(mem, m))
  {
    hide Storable, Before, KeyOf;
  }

  lemma NoLoss(cat: Catalogue, parse: Wal.Parser, run: seq<Action>, y: System)
    requires Possible(cat, parse, run) && AllStorable(parse, run) && y == After(parse, run)
    requires !y.h.exposed && Intact(y) && y.h.tail == []
    ensures var r := Recover(parse, y.files); Covers(y.mem, r) && (y.h.calm ==> r.slots == y.mem.slots)
  {
    hide After, Possible, AllStorable, Recover, Covers, Run, LoadSnapshot, Storable;
    var next := NothingCut();
    var r := CrashRecovers(cat, parse, run, y, next, 0);
    assert y.files.wal + [] == y.files.wal;
    assert Crashed(y.files, next, 0) == y.files;
  }
}
