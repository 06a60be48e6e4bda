/** Checkpoints and recovery on the three files `events.jsonl`, `wal.log.old` and `wal.log`, down
    to their bytes: rotating the log, writing a snapshot, removing the old segment, a crash at
    any point, and loading what it left (src/store/mod.rs:402-508, 668-742, 785-926;
    src/store/wal.rs:123-145). Memory is unlimited here (`max_bytes` = 0), so loading evicts
    nothing. */
module Checkpoint {
  import opened Events
  import opened StoreSpec
  import opened Replays
  import Snapshots
  import Wal

  // ---------------------------------------------------------------- the files

  datatype Files = Files(snapshot: Bytes, rotated: Option<Bytes>, wal: Bytes)

  function ToWal(op: Op): Wal.WalOp {
    match op
    case OpInsert(e) => Wal.Insert(e.raw)
    case OpRemove(id) => Wal.Delete(id)
    case OpDelete(id) => Wal.Tombstone(id)
  }

  function ToWalAll(ops: seq<Op>): seq<Wal.WalOp> {
    seq(|ops|, i requires 0 <= i < |ops| => ToWal(ops[i]))
  }

  function LogBytes(ops: seq<Op>): Bytes {
    Wal.EncodeAll(ToWalAll(ops))
  }

  /** What a segment makes recovery do. */
  function ReadLog(parse: Wal.Parser, segment: Bytes): seq<Op> {
    Wal.Meanings(parse, Wal.Replay(segment).ops)
  }

  function ReadRotated(parse: Wal.Parser, f: Files): seq<Op> {
    ReadLog(parse, if f.rotated.Some? then f.rotated.value else [])
  }

  function LoadSnapshot(events: seq<Event>): Store {
    Run(EMPTY, Inserts(events))
  }

  /** Recovery: the snapshot line by line, then the rotated segment, then the log. */
  function Recover(parse: Wal.Parser, f: Files): Store {
    Run(Run(LoadSnapshot(Snapshots.ReadSnapshot(parse, f.snapshot)), ReadRotated(parse, f)), ReadLog(parse, f.wal))
  }

  /** Recovery applied something, and will end with a checkpoint. */
  predicate Applied(parse: Wal.Parser, f: Files) {
    Snapshots.ReadSnapshot(parse, f.snapshot) != [] || ReadRotated(parse, f) != [] || ReadLog(parse, f.wal) != []
  }

  /** The payload fits a record, takes one line, and parses back. */
  ghost predicate Storable(parse: Wal.Parser, e: Event) {
    |e.raw| <= Wal.MAX_WAL_RECORD_SIZE && Snapshots.OneLine(e.raw) && parse(e.raw) == Some(e)
  }

  /** Whatever parses from the files is the event its id stands for, */
  ghost predicate ReadsGenuine(cat: Catalogue, parse: Wal.Parser, f: Files) {
    && (forall e :: e in Snapshots.ReadSnapshot(parse, f.snapshot) ==> Genuine(cat, e))
    && AllGenuine(cat, ReadRotated(parse, f)) && AllGenuine(cat, ReadLog(parse, f.wal))
  }

  /** and could be written to them again. */
  ghost predicate ReadsStorable(parse: Wal.Parser, f: Files) {
    && (forall e :: e in Snapshots.ReadSnapshot(parse, f.snapshot) ==> Storable(parse, e))
    && Writable(parse, ReadRotated(parse, f)) && Writable(parse, ReadLog(parse, f.wal))
  }

  ghost predicate Writable(parse: Wal.Parser, ops: seq<Op>) {
    forall i :: 0 <= i < |ops| && ops[i].OpInsert? ==> Storable(parse, ops[i].e)
  }

  lemma {:induction false} MeaningOfWritten(parse: Wal.Parser, ops: seq<Op>)
    requires Writable(parse, ops)
    ensures Wal.Meanings(parse, ToWalAll(ops)) == ops
  {
    hide Wal.Meaning;
    if ops != [] {
      var n := |ops| - 1;
      assert ToWalAll(ops)[..n] == ToWalAll(ops[..n]);
      MeaningOfWritten(parse, ops[..n]);
      MeaningOfOne(parse, ops[n]);
      assert ops == ops[..n] + [ops[n]];
    }
  }

  lemma MeaningOfOne(parse: Wal.Parser, op: Op)
    requires op.OpInsert? ==> Storable(parse, op.e)
    ensures Wal.Meaning(parse, ToWal(op)) == [op]
  {
  }

  /** The bytes that an append cut off by a crash leaves behind. */
  function CutOff(next: Wal.WalOp, n: nat): Bytes {
    if n <= |Wal.Encode(next)| then Wal.Encode(next)[..n] else []
  }

  ghost predicate Torn(tail: Bytes) {
    exists next, n: nat :: Wal.Fits(next) && n < |Wal.Encode(next)| && tail == CutOff(next, n)
  }

  lemma NothingTorn()
    ensures Torn([])
  {
    var next := Wal.Delete(seq(32, i => 0));
    assert Wal.Fits(next) && CutOff(next, 0) == [];
  }

  /** A segment reads back as logged, whatever torn bytes end it. */
  lemma SegmentReadsBack(parse: Wal.Parser, ops: seq<Op>, tail: Bytes)
    requires Writable(parse, ops) && Torn(tail)
    ensures ReadLog(parse, LogBytes(ops) + tail) == ops
  {
    hide Wal.Replay, Wal.EncodeAll, Wal.Encode, Wal.Meanings;
    var next, n: nat :| Wal.Fits(next) && n < |Wal.Encode(next)| && tail == CutOff(next, n);
    assert forall i :: 0 <= i < |ops| ==> Wal.Fits(ToWalAll(ops)[i]);
    Wal.ReplayWholeRecords(ToWalAll(ops), tail);
    if n > 0 { Wal.TornRecordIsRefused(next, n); } else { Wal.NothingToReplay(); }
    assert ToWalAll(ops) + [] == ToWalAll(ops);
    MeaningOfWritten(parse, ops);
  }

  lemma LogBytesAppend(a: seq<Op>, b: seq<Op>)
    ensures LogBytes(a + b) == LogBytes(a) + LogBytes(b)
    ensures LogBytes([]) == []
  {
    assert ToWalAll(a + b) == ToWalAll(a) + ToWalAll(b);
    Wal.EncodeAllAppend(ToWalAll(a), ToWalAll(b));
  }

  // ---------------------------------------------------------------- the machine

  /** How far a checkpoint has got. A `Rotated` system may be one whose snapshot failed, a
      `Snapped` one whose removal of `wal.log.old` failed. `Loaded` is between loading and the
      checkpoint that follows it, before clients are served. */
  datatype Phase = Resting | Rotated | Snapped | Loaded

  /** What the files were meant to hold, and what has happened since: of `prior` and `log` the
      records, of the tails the bytes cut off by crashes. `calm` and `held` speak of the time
      since the oldest segment on disk began, `calmNow` and `heldNow` of the time since `log`
      began. */
  datatype History = History(
    listed: seq<Event>, prior: seq<Op>, log: seq<Op>, priorTail: Bytes, tail: Bytes,
    /** Memory holds what only a segment held that is gone. */
    exposed: bool,
    /** Something was appended to the log, or to the rotated segment, after torn bytes. */
    spoiled: bool, priorSpoiled: bool,
    /** Nothing was evicted, and no recovery came up short. */
    calm: bool, calmNow: bool,
    /** Every event that was in memory. */
    held: set<Event>, heldNow: set<Event>)

  datatype System = System(mem: Store, files: Files, phase: Phase, h: History)

  const INITIAL := System(EMPTY, Files([], None, []), Resting,
                          History([], [], [], [], [], false, false, false, true, true, {}, {}))

  /** `WriteSnapshot` carries the order in which the live events are listed, `Restart` the append
      that the crash interrupts and how many of its bytes were written. */
  datatype Action =
    | Perform(m: MemOp)
    | Rotate
    | WriteSnapshot(listing: seq<Event>)
    | RemoveOld
    | Restart(next: Wal.WalOp, n: nat)

  ghost predicate Lists(listing: seq<Event>, s: Store) {
    forall e :: e in listing <==> e in Live(s)
  }

  ghost predicate Enabled(y: System, a: Action) {
    match a
    case Perform(m) => !y.phase.Loaded?
    case Rotate => true
    case WriteSnapshot(listing) => y.phase.Rotated? && Lists(listing, y.mem)
    case RemoveOld => y.phase.Snapped?
    case Restart(next, n) => Wal.Fits(next) && n < |Wal.Encode(next)| && (y.phase.Loaded? ==> n == 0)
  }

  function Crashed(f: Files, next: Wal.WalOp, n: nat): Files {
    f.(wal := f.wal + CutOff(next, n))
  }

  ghost function AfterPerform(y: System, m: MemOp): System {
    var mem, records, h := Do(y.mem, m), Records(y.mem, m), y.h;
    System(mem, y.files.(wal := y.files.wal + LogBytes(records)), y.phase,
           h.(log := h.log + records,
              spoiled := h.spoiled || (h.tail != [] && records != []),
              calm := h.calm && !m.Evict?, calmNow := h.calmNow && !m.Evict?,
              held := h.held + Live(mem), heldNow := h.heldNow + Live(mem)))
  }

  /** `rotate` renames over whatever `wal.log.old` there is; an empty one is no loss. */
  ghost function AfterRotate(y: System): System {
    var h := y.h;
    var emptyOld := y.phase.Rotated? && h.prior == [];
    System(y.mem, Files(y.files.snapshot, Some(y.files.wal), []), Rotated,
           h.(prior := h.log, log := [], priorTail := h.tail, tail := [],
              exposed := h.exposed || (y.phase.Rotated? && h.prior != []),
              spoiled := false, priorSpoiled := h.spoiled,
              calm := if emptyOld then h.calm else h.calmNow, calmNow := true,
              held := if emptyOld then h.held else h.heldNow, heldNow := Live(y.mem)))
  }

  function AfterSnapshot(y: System, listing: seq<Event>): System {
    System(y.mem, y.files.(snapshot := Snapshots.WriteLines(Snapshots.Payloads(listing))), Snapped,
           y.h.(listed := listing, exposed := false))
  }

  function AfterRemoveOld(y: System): System {
    System(y.mem, y.files.(rotated := None), Resting,
           y.h.(prior := [], priorTail := [], priorSpoiled := false, calm := y.h.calmNow, held := y.h.heldNow))
  }

  /** A segment will not be read as what was written to it. */
  predicate Misreads(y: System, cut: Bytes) {
    y.h.spoiled || y.h.priorSpoiled || (y.h.tail != [] && cut != [])
  }

  /** Both segments are read as what was written to them. */
  predicate Intact(y: System) {
    !y.h.spoiled && !y.h.priorSpoiled
  }

  /** The snapshot covers the rotated segment, and replaying the segment adds nothing to it. */
  predicate Superseded(y: System) {
    y.phase.Snapped? && y.h.calm && !y.h.exposed
  }

  /** After a misreading nothing is known of the log but that it is spoiled. */
  ghost function HistoryAfterRestart(y: System, mem: Store, cut: Bytes): History {
    var h, held := y.h, y.h.held + Live(mem);
    if Misreads(y, cut) then
      History(h.listed, [], [], [], [], true, true, false, false, false, held, held)
    else
      var calm := h.calm && !h.exposed;
      var exposed := h.prior != [] && !Superseded(y);
      History(h.listed, [], h.log, [], h.tail + cut, exposed, false, false, calm, calm, held, held)
  }

  /** Loading ends with removing `wal.log.old`, and with a checkpoint only if something was
      applied; otherwise the log stays as it is. */
  ghost function AfterRestart(parse: Wal.Parser, y: System, next: Wal.WalOp, n: nat): System {
    var files := Crashed(y.files, next, n);
    var mem := Recover(parse, files);
    System(mem, files.(rotated := None), if Applied(parse, files) then Loaded else Resting,
           HistoryAfterRestart(y, mem, CutOff(next, n)))
  }

  ghost function Next(parse: Wal.Parser, y: System, a: Action): System {
    match a
    case Perform(m) => AfterPerform(y, m)
    case Rotate => AfterRotate(y)
    case WriteSnapshot(listing) => AfterSnapshot(y, listing)
    case RemoveOld => AfterRemoveOld(y)
    case Restart(next, n) => AfterRestart(parse, y, next, n)
  }

  /** The system after a run. */
  ghost function After(parse: Wal.Parser, actions: seq<Action>): System {
    if actions == [] then INITIAL else Next(parse, After(parse, actions[..|actions| - 1]), actions[|actions| - 1])
  }

  /** What the run takes from outside is genuine: events published, and events that loading parses.
      (Unless a segment is misread, the latter follows; see `LoadingIsGenuine`.) */
  ghost predicate Honest(cat: Catalogue, parse: Wal.Parser, y: System, a: Action) {
    match a
    case Perform(m) => m.Publish? ==> Genuine(cat, m.e)
    case Restart(next, n) => ReadsGenuine(cat, parse, Crashed(y.files, next, n))
    case _ => true
  }

  ghost predicate Possible(cat: Catalogue, parse: Wal.Parser, actions: seq<Action>) {
    if actions == [] then true
    else
      var before, a := actions[..|actions| - 1], actions[|actions| - 1];
      var y := After(parse, before);
      Possible(cat, parse, before) && Enabled(y, a) && Honest(cat, parse, y, a)
  }

  /** Likewise every payload that enters can be written and read back. */
  ghost predicate Handy(parse: Wal.Parser, y: System, a: Action) {
    match a
    case Perform(m) => m.Publish? ==> Storable(parse, m.e)
    case Restart(next, n) => ReadsStorable(parse, Crashed(y.files, next, n))
    case _ => true
  }

  ghost predicate AllStorable(parse: Wal.Parser, actions: seq<Action>) {
    if actions == [] then true
    else
      var before, a := actions[..|actions| - 1], actions[|actions| - 1];
      AllStorable(parse, before) && Handy(parse, After(parse, before), a)
  }

  // ---------------------------------------------------------------- invariant: the files

  ghost predicate AllGood(parse: Wal.Parser, y: System) {
    && (forall e :: e in Live(y.mem) ==> Storable(parse, e))
    && (forall e :: e in y.h.listed ==> Storable(parse, e))
    && Writable(parse, y.h.prior) && Writable(parse, y.h.log)
  }

  /** The files hold what was written to them, as far as they are not spoiled. */
  ghost predicate OnDisk(y: System) {
    var f, h := y.files, y.h;
    && f.snapshot == Snapshots.WriteLines(Snapshots.Payloads(h.listed))
    && (!h.spoiled ==> f.wal == LogBytes(h.log) + h.tail && Torn(h.tail))
    && (!h.priorSpoiled ==> Torn(h.priorTail))
    && (if y.phase.Rotated? || y.phase.Snapped?
        then f.rotated.Some? && (!h.priorSpoiled ==> f.rotated.value == LogBytes(h.prior) + h.priorTail)
        else f.rotated == None && h.prior == [] && !h.priorSpoiled)
  }

  /** So they are read back as that, with or without a further record cut off. */
  lemma FilesReadBack(parse: Wal.Parser, y: System, cut: Bytes)
    requires AllGood(parse, y) && OnDisk(y) && !y.h.spoiled && !y.h.priorSpoiled && Torn(y.h.tail + cut)
    ensures var f := y.files.(wal := y.files.wal + cut);
            && Snapshots.ReadSnapshot(parse, f.snapshot) == y.h.listed
            && ReadRotated(parse, f) == y.h.prior
            && ReadLog(parse, f.wal) == y.h.log
            && Recover(parse, f) == Run(LoadSnapshot(y.h.listed), y.h.prior + y.h.log)
            && (Applied(parse, f) <==> y.h.listed != [] || y.h.prior != [] || y.h.log != [])
  {
    hide ReadLog, LogBytes, Storable, Snapshots.ReadSnapshot, Run, Torn;
    var h := y.h;
    assert forall i :: 0 <= i < |h.listed| ==> Storable(parse, h.listed[i]) by {
      assert forall i :: 0 <= i < |h.listed| ==> h.listed[i] in h.listed;
    }
    ListedReadBack(parse, h.listed);
    assert y.files.wal + cut == LogBytes(h.log) + (h.tail + cut);
    SegmentReadsBack(parse, h.log, h.tail + cut);
    if y.files.rotated.Some? {
      SegmentReadsBack(parse, h.prior, h.priorTail);
    } else {
      NothingTorn();
      LogBytesAppend([], []);
      assert LogBytes([]) + [] == [];
      SegmentReadsBack(parse, [], []);
    }
    Wal.RunAppend(LoadSnapshot(h.listed), h.prior, h.log);
  }

  lemma ListedReadBack(parse: Wal.Parser, listed: seq<Event>)
    requires forall i :: 0 <= i < |listed| ==> Storable(parse, listed[i])
    ensures Snapshots.ReadSnapshot(parse, Snapshots.WriteLines(Snapshots.Payloads(listed))) == listed
  {
    Snapshots.SnapshotReadsBack(parse, listed);
  }

  // ---------------------------------------------------------------- invariant: memory

  /** Memory and the records appended to a log, whatever snapshot lies under it. */
  ghost predicate Chain(cat: Catalogue, log: seq<Op>, mem: Store, calm: bool, held: set<Event>) {
    && Settled(cat, log, mem)
    && (calm ==> Mirrors(log, mem) && Selects(cat, log))
    && (forall e :: OpInsert(e) in log ==> e in held)
    && Live(mem) <= held
  }

  /** Loading `x` and replaying the log recovers what it must. */
  ghost predicate Safe(x: Store, log: seq<Op>, mem: Store, calm: bool, held: set<Event>) {
    && Covers(mem, Run(x, log))
    && (calm ==> Run(x, log).slots == mem.slots)
    && Live(Run(x, log)) <= held
  }

  ghost predicate Tracks(cat: Catalogue, y: System) {
    var mem, h, x := y.mem, y.h, LoadSnapshot(y.h.listed);
    && Wf(cat, mem)
    && (forall e :: e in h.listed ==> Genuine(cat, e))
    && Chain(cat, h.log, mem, h.calmNow, h.heldNow)
    && Chain(cat, h.prior + h.log, mem, h.calm, h.held)
    && Selects(cat, h.log) && (!y.phase.Loaded? ==> Leads(h.log, mem))
    && Splits(cat, h.prior, h.log)
    && (h.calm ==> h.calmNow)
    && (!h.exposed ==> Safe(x, h.prior + h.log, mem, h.calm, h.held))
    && (!h.exposed && !y.phase.Rotated? ==> Safe(x, h.log, mem, h.calmNow, h.heldNow))
  }

  ghost predicate Inv(cat: Catalogue, parse: Wal.Parser, y: System) {
    AllGood(parse, y) && OnDisk(y) && Tracks(cat, y)
  }

  lemma LoadedIsBare(cat: Catalogue, listed: seq<Event>)
    requires forall e :: e in listed ==> Genuine(cat, e)
    ensures Bare(cat, LoadSnapshot(listed))
  {
    InsertsKeepTheWinners(cat, listed);
  }

  lemma ChainStep(cat: Catalogue, log: seq<Op>, mem: Store, calm: bool, held: set<Event>, m: MemOp)
    requires Wf(cat, mem) && Chain(cat, log, mem, calm, held) && (m.Publish? ==> Genuine(cat, m.e))
    ensures Chain(cat, log + Records(mem, m), Do(mem, m), calm && !m.Evict?, held + Live(Do(mem, m)))
  {
    hide Settled, Selects, Mirrors, Records, Do, Live;
    StepSettled(cat, log, mem, m);
    SettledMeans(cat, log, mem);
    if calm && !m.Evict? {
      MirrorsLead(log, mem);
      StepSelects(cat, log, mem, m);
      StepMirrors(cat, log, mem, m);
    }
    forall e | OpInsert(e) in Records(mem, m) ensures e in Live(Do(mem, m)) { RecordsInsert(mem, m, e); }
  }

  lemma MirrorsLead(log: seq<Op>, mem: Store)
    requires Mirrors(log, mem)
    ensures Leads(log, mem)
  {
  }

  lemma SafeStep(cat: Catalogue, x: Store, log: seq<Op>, mem: Store, calm: bool, held: set<Event>, m: MemOp)
    requires Bare(cat, x) && Wf(cat, mem) && Settled(cat, log, mem) && Safe(x, log, mem, calm, held)
    requires m.Publish? ==> Genuine(cat, m.e)
    ensures Safe(x, log + Records(mem, m), Do(mem, m), calm && !m.Evict?, held + Live(Do(mem, m)))
  {
    hide Settled, Records, Do, Run, Covers, Live, TombsKept;
    SettledMeans(cat, log, mem);
    BareReplay(cat, x, log, mem);
    var r := Run(x, log);
    StepCovers(cat, mem, r, m);
    Wal.RunAppend(x, log, Records(mem, m));
    forall e | e in Live(Run(r, Records(mem, m))) ensures e in held + Live(Do(mem, m)) {
      ReplayInventsNothing(r, Records(mem, m), e);
      if OpInsert(e) in Records(mem, m) { RecordsInsert(mem, m, e); }
    }
  }

  lemma SnapshotIsSafe(cat: Catalogue, log: seq<Op>, mem: Store, calm: bool, held: set<Event>)
    requires Wf(cat, mem) && Chain(cat, log, mem, calm, held)
    ensures Safe(Stripped(mem), log, mem, calm, held)
  {
    hide Settled, Run, Covers, Selects;
    SnapshotCovers(cat, log, mem, Stripped(mem));
    forall e | e in Live(Run(Stripped(mem), log)) ensures e in held {
      ReplayInventsNothing(Stripped(mem), log, e);
    }
  }

  lemma PerformKeepsTrack(cat: Catalogue, y: System, m: MemOp)
    requires Tracks(cat, y) && !y.phase.Loaded? && (m.Publish? ==> Genuine(cat, m.e))
    ensures Tracks(cat, AfterPerform(y, m))
  {
    hide Settled, Records, Do, Run, Chain, Safe, Wf, Selects, Leads, Splits, LoadSnapshot, Live, TombsKept;
    var mem, h, x := y.mem, y.h, LoadSnapshot(y.h.listed);
    var records := Records(mem, m);
    assert h.prior + (h.log + records) == (h.prior + h.log) + records;
    LoadedIsBare(cat, h.listed);
    DoKeepsWf(cat, mem, m);
    ChainMeans(cat, h.log, mem, h.calmNow, h.heldNow);
    ChainMeans(cat, h.prior + h.log, mem, h.calm, h.held);
    ChainStep(cat, h.log, mem, h.calmNow, h.heldNow, m);
    ChainStep(cat, h.prior + h.log, mem, h.calm, h.held, m);
    StepSelects(cat, h.log, mem, m);
    StepSplits(cat, h.prior, h.log, mem, m);
    if !h.exposed {
      SafeStep(cat, x, h.prior + h.log, mem, h.calm, h.held, m);
      if !y.phase.Rotated? { SafeStep(cat, x, h.log, mem, h.calmNow, h.heldNow, m); }
    }
  }

  lemma ChainMeans(cat: Catalogue, log: seq<Op>, mem: Store, calm: bool, held: set<Event>)
    requires Chain(cat, log, mem, calm, held)
    ensures Settled(cat, log, mem) && AllGenuine(cat, log) && TombsKept(log, mem)
  {
  }

  lemma RotateKeepsTrack(cat: Catalogue, y: System)
    requires Tracks(cat, y)
    ensures Tracks(cat, AfterRotate(y))
  {
    hide Settled, Run, Safe, Wf, Selects, Leads, Splits, LoadSnapshot, Mirrors;
    NothingLogged(cat, y.mem);
    SplitAtEnd(cat, y.h.log);
    assert y.h.log + [] == y.h.log;
    if y.h.prior == [] { assert y.h.prior + y.h.log == y.h.log; }
  }

  lemma SnapshotKeepsTrack(cat: Catalogue, y: System, listing: seq<Event>)
    requires Tracks(cat, y) && y.phase.Rotated? && Lists(listing, y.mem)
    ensures Tracks(cat, AfterSnapshot(y, listing))
  {
    hide Settled, Run, Safe, Chain, Selects, Leads, Splits;
    Wal.LiveListRebuildsStore(cat, y.mem, listing);
    assert LoadSnapshot(listing) == Stripped(y.mem);
    forall e | e in listing ensures Genuine(cat, e) { LiveIsGenuine(cat, y.mem, e); }
    SnapshotIsSafe(cat, y.h.log, y.mem, y.h.calmNow, y.h.heldNow);
    SnapshotIsSafe(cat, y.h.prior + y.h.log, y.mem, y.h.calm, y.h.held);
  }

  lemma LiveIsGenuine(cat: Catalogue, s: Store, e: Event)
    requires Wf(cat, s) && e in Live(s)
    ensures Genuine(cat, e)
  {
    var sl :| sl in s.slots && s.slots[sl] == e;
  }

  lemma RemoveOldKeepsTrack(cat: Catalogue, y: System)
    requires Tracks(cat, y) && y.phase.Snapped?
    ensures Tracks(cat, AfterRemoveOld(y))
  {
    hide Settled, Safe, Chain, Selects, Leads, Wf, LoadSnapshot;
    assert [] + y.h.log == y.h.log;
    NoPriorSplits(cat, y.h.log);
  }

  lemma NoPriorSplits(cat: Catalogue, log: seq<Op>)
    ensures Splits(cat, [], log)
  {
    assert [] + log == log;
    forall x | Bare(cat, x) ensures Run(x, [] + log).slots == Run(Stripped(Run(x, [])), log).slots {
      assert Stripped(Run(x, [])) == x;
    }
  }

  /** Loading replaces memory by what the files say. */
  lemma RestartKeepsTrack(cat: Catalogue, parse: Wal.Parser, y: System, next: Wal.WalOp, n: nat)
    requires Tracks(cat, y) && !Misreads(y, CutOff(next, n))
    requires var f := Crashed(y.files, next, n);
             && Recover(parse, f) == Run(LoadSnapshot(y.h.listed), y.h.prior + y.h.log)
             && (Applied(parse, f) <==> y.h.listed != [] || y.h.prior != [] || y.h.log != [])
    ensures Tracks(cat, AfterRestart(parse, y, next, n))
  {
    hide Settled, Run, Selects, Splits, LoadSnapshot, Covers, Mirrors, Applied, Recover, Leads, Wf, CutOff;
    var h, x := y.h, LoadSnapshot(y.h.listed);
    var y' := AfterRestart(parse, y, next, n);
    var mem' := y'.mem;
    LoadedIsBare(cat, h.listed);
    ChainMeans(cat, h.prior + h.log, y.mem, h.calm, h.held);
    TailSettled(cat, h.prior, h.log, y.mem, x);
    RunKeepsWf(cat, x, h.prior + h.log);
    assert [] + h.log == h.log;
    NoPriorSplits(cat, h.log);
    if h.calm && !h.exposed { MirrorsBySlots(h.log, y.mem, mem'); }
    if h.prior == [] {
      assert h.prior + h.log == h.log;
      CoversItself(cat, mem', mem');
    } else if Superseded(y) {
      assert Run(x, h.log).slots == y.mem.slots == mem'.slots;
      CoversItself(cat, mem', Run(x, h.log));
    }
    if !y'.phase.Loaded? { NothingLogged(cat, mem'); }
  }

  /** After a misreading memory is well formed, and that is all that is known. */
  lemma MisreadingKeepsTrack(cat: Catalogue, parse: Wal.Parser, y: System, next: Wal.WalOp, n: nat)
    requires Tracks(cat, y) && Misreads(y, CutOff(next, n)) && ReadsGenuine(cat, parse, Crashed(y.files, next, n))
    ensures Tracks(cat, AfterRestart(parse, y, next, n))
  {
    hide Settled, Run, Selects, Splits, LoadSnapshot, Covers, Mirrors, Applied, Leads, Wf, CutOff, ReadLog, ReadRotated,
      Snapshots.ReadSnapshot;
    var f := Crashed(y.files, next, n);
    var events := Snapshots.ReadSnapshot(parse, f.snapshot);
    LoadedIsBare(cat, events);
    RunKeepsWf(cat, LoadSnapshot(events), ReadRotated(parse, f));
    RunKeepsWf(cat, Run(LoadSnapshot(events), ReadRotated(parse, f)), ReadLog(parse, f.wal));
    var mem' := Recover(parse, f);
    NothingLogged(cat, mem');
    NoPriorSplits(cat, []);
    assert y.h.log[..0] + [] == [];
  }

  lemma MirrorsBySlots(log: seq<Op>, mem: Store, mem': Store)
    requires Mirrors(log, mem) && mem'.slots == mem.slots
    ensures Mirrors(log, mem')
  {
    assert Stripped(mem) == Stripped(mem');
  }

  lemma CoversItself(cat: Catalogue, mem: Store, r: Store)
    requires Wf(cat, mem) && r.slots == mem.slots
    ensures Covers(mem, r) && Live(r) == Live(mem)
  {
  }

  // ---------------------------------------------------------------- invariant: every action

  lemma PerformKeepsFiles(parse: Wal.Parser, y: System, m: MemOp)
    requires AllGood(parse, y) && OnDisk(y) && (m.Publish? ==> Storable(parse, m.e))
    ensures AllGood(parse, AfterPerform(y, m)) && OnDisk(AfterPerform(y, m))
  {
    hide LogBytes, Storable, Torn, Bury, Before, KeyOf;
    var records := Records(y.mem, m);
    LogBytesAppend(y.h.log, records);
    if !AfterPerform(y, m).h.spoiled && y.h.tail != [] {
      assert records == [] && y.h.log + records == y.h.log;
      assert y.files.wal + [] == y.files.wal;
    }
    assert AllGood(parse, AfterPerform(y, m)) by { PerformKeepsGood(parse, y, m); }
  }

  lemma PerformKeepsGood(parse: Wal.Parser, y: System, m: MemOp)
    requires AllGood(parse, y) && (m.Publish? ==> Storable(parse, m.e))
    ensures AllGood(parse, AfterPerform(y, m))
  {
    hide LogBytes, Storable, Bury, Before, KeyOf;
  }

  lemma CutIsTorn(tail: Bytes, next: Wal.WalOp, n: nat)
    requires Torn(tail) && Wal.Fits(next) && n < |Wal.Encode(next)| && (tail == [] || CutOff(next, n) == [])
    ensures Torn(tail + CutOff(next, n))
  {
    var cut := CutOff(next, n);
    assert tail + cut == if tail == [] then cut else tail;
  }

  lemma RestartKeepsFiles(parse: Wal.Parser, y: System, next: Wal.WalOp, n: nat)
    requires AllGood(parse, y) && OnDisk(y) && !Misreads(y, CutOff(next, n)) && Torn(y.h.tail + CutOff(next, n))
    requires Recover(parse, Crashed(y.files, next, n)) == Run(LoadSnapshot(y.h.listed), y.h.prior + y.h.log)
    ensures AllGood(parse, AfterRestart(parse, y, next, n)) && OnDisk(AfterRestart(parse, y, next, n))
  {
    hide LogBytes, Storable, Recover, Applied, Run, CutOff, Torn, LoadSnapshot, Wal.Encode;
    NothingTorn();
    var y', cut := AfterRestart(parse, y, next, n), CutOff(next, n);
    assert Writable(parse, y.h.prior + y.h.log);
    forall e | e in Live(y'.mem) ensures Storable(parse, e) {
      RecoveredIsGood(parse, y.h.listed, y.h.prior + y.h.log, e);
    }
    assert (LogBytes(y.h.log) + y.h.tail) + cut == LogBytes(y.h.log) + (y.h.tail + cut);
  }

  lemma RecoveredIsGood(parse: Wal.Parser, listed: seq<Event>, log: seq<Op>, e: Event)
    requires (forall x :: x in listed ==> Storable(parse, x)) && Writable(parse, log)
    requires e in Live(Run(LoadSnapshot(listed), log))
    ensures Storable(parse, e)
  {
    hide Storable;
    ReplayInventsNothing(LoadSnapshot(listed), log, e);
    if e in Live(LoadSnapshot(listed)) {
      ReplayInventsNothing(EMPTY, Inserts(listed), e);
      var i :| 0 <= i < |listed| && Inserts(listed)[i] == OpInsert(e);
      assert listed[i] in listed;
    }
  }

  lemma MisreadingKeepsFiles(parse: Wal.Parser, y: System, next: Wal.WalOp, n: nat)
    requires AllGood(parse, y) && OnDisk(y) && Misreads(y, CutOff(next, n))
    requires ReadsStorable(parse, Crashed(y.files, next, n))
    ensures AllGood(parse, AfterRestart(parse, y, next, n)) && OnDisk(AfterRestart(parse, y, next, n))
  {
    hide LogBytes, Storable, Applied, Run, CutOff, Torn, LoadSnapshot, Wal.Encode, ReadLog, ReadRotated,
      Snapshots.ReadSnapshot;
    NothingTorn();
    var f := Crashed(y.files, next, n);
    var events, rotated, log := Snapshots.ReadSnapshot(parse, f.snapshot), ReadRotated(parse, f), ReadLog(parse, f.wal);
    Wal.RunAppend(LoadSnapshot(events), rotated, log);
    assert Writable(parse, rotated + log);
    forall e | e in Live(Recover(parse, f)) ensures Storable(parse, e) {
      RecoveredIsGood(parse, events, rotated + log, e);
    }
  }

  lemma OthersKeepFiles(parse: Wal.Parser, y: System, a: Action)
    requires AllGood(parse, y) && OnDisk(y) && Enabled(y, a) && !a.Perform? && !a.Restart?
    ensures AllGood(parse, Next(parse, y, a)) && OnDisk(Next(parse, y, a))
  {
    hide Storable, Torn;
    NothingTorn();
    LogBytesAppend([], []);
    assert forall b: Bytes :: [] + b == b;
  }

  lemma StepKeepsInv(cat: Catalogue, parse: Wal.Parser, y: System, a: Action)
    requires Inv(cat, parse, y) && Enabled(y, a) && Honest(cat, parse, y, a) && Handy(parse, y, a)
    ensures Inv(cat, parse, Next(parse, y, a))
  {
    hide AllGood, OnDisk, Tracks, Storable, Recover, Applied, CutOff, ReadsGenuine, ReadsStorable;
    match a {
      case Perform(m) =>
        PerformKeepsFiles(parse, y, m);
        PerformKeepsTrack(cat, y, m);
      case Rotate =>
        OthersKeepFiles(parse, y, a);
        RotateKeepsTrack(cat, y);
      case WriteSnapshot(listing) =>
        OthersKeepFiles(parse, y, a);
        SnapshotKeepsTrack(cat, y, listing);
      case RemoveOld =>
        OthersKeepFiles(parse, y, a);
        RemoveOldKeepsTrack(cat, y);
      case Restart(next, n) =>
        if Misreads(y, CutOff(next, n)) {
          MisreadingKeepsFiles(parse, y, next, n);
          MisreadingKeepsTrack(cat, parse, y, next, n);
        } else {
          TailIsTorn(y);
          CutIsTorn(y.h.tail, next, n);
          FilesReadBack(parse, y, CutOff(next, n));
          RestartKeepsFiles(parse, y, next, n);
          RestartKeepsTrack(cat, parse, y, next, n);
        }
    }
  }

  /** What is loaded without a misreading is what was published: genuine, and storable. */
  lemma LoadingIsGenuine(cat: Catalogue, parse: Wal.Parser, y: System, next: Wal.WalOp, n: nat)
    requires Inv(cat, parse, y) && Enabled(y, Restart(next, n)) && !Misreads(y, CutOff(next, n))
    ensures Honest(cat, parse, y, Restart(next, n)) && Handy(parse, y, Restart(next, n))
  {
    hide Storable, Recover, Applied, CutOff, LogBytes, Torn, ReadLog, ReadRotated, Snapshots.ReadSnapshot, Settled;
    CutIsTorn(y.h.tail, next, n);
    FilesReadBack(parse, y, CutOff(next, n));
    ChainMeans(cat, y.h.log, y.mem, y.h.calmNow, y.h.heldNow);
    ChainMeans(cat, y.h.prior + y.h.log, y.mem, y.h.calm, y.h.held);
    var all := y.h.prior + y.h.log;
    assert forall i :: 0 <= i < |y.h.prior| ==> all[i] == y.h.prior[i];
  }

  lemma TailIsTorn(y: System)
    requires OnDisk(y) && !y.h.spoiled
    ensures Torn(y.h.tail)
  {
  }

  lemma InitialInv(cat: Catalogue, parse: Wal.Parser)
    ensures Inv(cat, parse, INITIAL)
  {
    hide Settled, Mirrors, Selects, Leads, Splits, Covers, Torn, LogBytes, Wf;
    NothingTorn();
    LogBytesAppend([], []);
    WfEmpty(cat);
    NothingLogged(cat, EMPTY);
    SplitAtEnd(cat, []);
    CoversItself(cat, EMPTY, EMPTY);
    assert LoadSnapshot([]) == EMPTY;
  }

  lemma AfterOneMore(cat: Catalogue, parse: Wal.Parser, actions: seq<Action>, a: Action)
    ensures After(parse, actions + [a]) == Next(parse, After(parse, actions), a)
    ensures Possible(cat, parse, actions + [a]) <==>
            && Possible(cat, parse, actions) && Enabled(After(parse, actions), a)
            && Honest(cat, parse, After(parse, actions), a)
    ensures AllStorable(parse, actions + [a]) <==> AllStorable(parse, actions) && Handy(parse, After(parse, actions), a)
  {
    assert (actions + [a])[..|actions|] == actions;
  }

  lemma StartOfRun(cat: Catalogue, parse: Wal.Parser)
    ensures After(parse, []) == INITIAL && Possible(cat, parse, []) && AllStorable(parse, [])
  {
  }

  lemma {:induction false} ReachableKeepsInv(cat: Catalogue, parse: Wal.Parser, actions: seq<Action>)
    requires Possible(cat, parse, actions) && AllStorable(parse, actions)
    ensures Inv(cat, parse, After(parse, actions))
  {
    hide Inv, Next, Enabled, Storable, Honest, Handy;
    if actions == [] {
      InitialInv(cat, parse);
    } else {
      var before, a := actions[..|actions| - 1], actions[|actions| - 1];
      ReachableKeepsInv(cat, parse, before);
      StepKeepsInv(cat, parse, After(parse, before), a);
    }
  }
}
