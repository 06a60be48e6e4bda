/** What the log says and what replaying it does (src/store/mod.rs:384-508, 851-896): the records
    that operations on memory leave behind, and how a store built from them compares with
    memory, from whatever snapshot the replay starts. */
module Replays {
  import opened Events
  import opened StoreSpec
  import Wal

  // ---------------------------------------------------------------- logged operations

  /** What happens to the store in memory: a client publishes an event, a deletion request
      reaches a stored event, or an event is evicted for space. */
  datatype MemOp = Publish(e: Event) | Retract(id: Id) | Evict(id: Id)

  predicate Holds(s: Store, id: Id) {
    exists sl :: sl in s.slots && s.slots[sl].id == id
  }

  function Do(s: Store, m: MemOp): Store {
    match m
    case Publish(e) => if IsEphemeral(e) then s else Insert(s, e)
    case Retract(id) => if Holds(s, id) then Delete(s, id) else s
    case Evict(id) => Remove(s, id)
  }

  /** The records an operation appends to the log. Evictions are not logged. */
  function Records(s: Store, m: MemOp): seq<Op> {
    match m
    case Publish(e) =>
      if IsEphemeral(e) || !Accepts(s, e) then []
      else if SlotOf(e) in s.slots then [OpInsert(e), OpRemove(s.slots[SlotOf(e)].id)]
      else [OpInsert(e)]
    case Retract(id) => if Holds(s, id) then [OpDelete(id)] else []
    case Evict(id) => []
  }

  function DoAll(s: Store, ms: seq<MemOp>): Store {
    if ms == [] then s else Do(DoAll(s, ms[..|ms| - 1]), ms[|ms| - 1])
  }

  function Log(s: Store, ms: seq<MemOp>): seq<Op> {
    if ms == [] then []
    else
      var before := ms[..|ms| - 1];
      Log(s, before) + Records(DoAll(s, before), ms[|ms| - 1])
  }

  ghost predicate GenuineOps(cat: Catalogue, ms: seq<MemOp>) {
    forall i :: 0 <= i < |ms| && ms[i].Publish? ==> Genuine(cat, ms[i].e)
  }

  predicate NoEvictions(ms: seq<MemOp>) {
    forall i :: 0 <= i < |ms| ==> !ms[i].Evict?
  }

  lemma OneMore(s: Store, ms: seq<MemOp>, m: MemOp)
    ensures DoAll(s, ms + [m]) == Do(DoAll(s, ms), m)
    ensures Log(s, ms + [m]) == Log(s, ms) + Records(DoAll(s, ms), m)
  {
    assert (ms + [m])[..|ms|] == ms;
  }

  lemma NoneYet(s: Store)
    ensures DoAll(s, []) == s && Log(s, []) == []
  {
  }

  lemma DoKeepsWf(cat: Catalogue, s: Store, m: MemOp)
    requires Wf(cat, s) && (m.Publish? ==> Genuine(cat, m.e))
    ensures Wf(cat, Do(s, m))
  {
    match m {
      case Publish(e) => ApplyKeepsWf(cat, s, OpInsert(e));
      case Retract(id) => ApplyKeepsWf(cat, s, OpDelete(id));
      case Evict(id) => ApplyKeepsWf(cat, s, OpRemove(id));
    }
  }

  // ---------------------------------------------------------------- replaying a log

  function At(slots: map<Slot, Event>, sl: Slot): Option<Event> {
    if sl in slots then Some(slots[sl]) else None
  }

  /** The replayed queue of tombstones is the tail of the one in memory. */
  ghost predicate Tail(q: seq<Id>, of: seq<Id>) {
    |q| <= |of| && of[|of| - |q|..] == q
  }

  lemma TailBury(q: seq<Id>, of: seq<Id>, id: Id)
    requires Tail(q, of) && id !in of && |of| <= MAX_TOMBSTONES
    ensures Tail(Bury(q, id), Bury(of, id))
  {
    assert forall x :: x in q ==> x in of;
    assert (of + [id])[|of| - |q|..] == q + [id];
  }

  lemma Run1(s: Store, op: Op)
    ensures Run(s, [op]) == Apply(s, op)
  {
    assert [op][..0] == [];
  }

  lemma Run2(s: Store, a: Op, b: Op)
    ensures Run(s, [a, b]) == Apply(Apply(s, a), b)
  {
    assert [a, b][..1] == [a];
    Run1(s, a);
  }

  /** A tombstone that refuses an event on replay refused it in memory. */
  lemma NotBuried(mem: Store, replay: Store, e: Event)
    requires Tail(replay.tombs, mem.tombs) && e.id !in mem.tombs
    ensures e.id !in replay.tombs
  {
    assert forall x :: x in replay.tombs ==> x in mem.tombs;
  }

  /** The record that deletes the displaced version never takes anything out on replay. */
  lemma DisplacedIsGone(cat: Catalogue, replay: Store, e: Event, displaced: Event)
    requires Wf(cat, replay) && Genuine(cat, e) && Genuine(cat, displaced)
    requires SlotOf(displaced) == SlotOf(e) && Before(e, displaced) && e.id !in replay.tombs
    ensures Remove(Insert(replay, e), displaced.id) == Insert(replay, e)
  {
    var r := Insert(replay, e);
    ApplyKeepsWf(cat, replay, OpInsert(e));
    BeforeTotal(e, displaced);
    forall sl | sl in r.slots ensures r.slots[sl].id != displaced.id {
      var holder := r.slots[sl];
      assert holder.id == displaced.id ==> holder == displaced;
    }
  }

  /** Replaying the records of one accepted insert comes to inserting the event. */
  lemma PublishOnReplay(cat: Catalogue, mem: Store, replay: Store, e: Event)
    requires Wf(cat, mem) && Wf(cat, replay) && Genuine(cat, e) && !IsEphemeral(e)
    requires Accepts(mem, e) && Tail(replay.tombs, mem.tombs)
    ensures Run(replay, Records(mem, Publish(e))) == Insert(replay, e)
    ensures e.id !in replay.tombs
  {
    NotBuried(mem, replay, e);
    if SlotOf(e) in mem.slots {
      var displaced := mem.slots[SlotOf(e)];
      Run2(replay, OpInsert(e), OpRemove(displaced.id));
      DisplacedIsGone(cat, replay, e, displaced);
    } else {
      Run1(replay, OpInsert(e));
    }
  }

  lemma RetractOnReplay(cat: Catalogue, s: Store, v: Event, sl: Slot)
    requires Wf(cat, s) && Genuine(cat, v)
    ensures Run(s, [OpDelete(v.id)]) == Delete(s, v.id)
    ensures At(Without(s.slots, v.id), sl) == if At(s.slots, sl) == Some(v) then None else At(s.slots, sl)
  {
    Run1(s, OpDelete(v.id));
  }

  // ---------------------------------------------------------------- effects, slot by slot

  /** What the records of an operation do to a store they are replayed on. */
  datatype Effect = Nothing | Adds(e: Event) | Takes(v: Event)

  ghost function HolderOf(s: Store, id: Id): Event
    requires Holds(s, id)
  {
    var sl :| sl in s.slots && s.slots[sl].id == id;
    s.slots[sl]
  }

  ghost function EffectOf(mem: Store, m: MemOp): Effect {
    match m
    case Publish(e) => if !IsEphemeral(e) && Accepts(mem, e) then Adds(e) else Nothing
    case Retract(id) => if Holds(mem, id) then Takes(HolderOf(mem, id)) else Nothing
    case Evict(_) => Nothing
  }

  function Act(fx: Effect, sl: Slot, x: Option<Event>): Option<Event> {
    match fx
    case Nothing => x
    case Adds(e) => if sl == SlotOf(e) && (x.None? || Before(e, x.value)) then Some(e) else x
    case Takes(v) => if x == Some(v) then None else x
  }

  ghost predicate Acts(fx: Effect, a: map<Slot, Event>, b: map<Slot, Event>) {
    forall sl :: At(b, sl) == Act(fx, sl, At(a, sl))
  }

  /** What memory knows about the event concerned. */
  ghost predicate Sane(cat: Catalogue, mem: Store, fx: Effect) {
    match fx
    case Nothing => true
    case Adds(e) =>
      && Genuine(cat, e) && e.id !in mem.tombs
      && (At(mem.slots, SlotOf(e)).None? || Before(e, At(mem.slots, SlotOf(e)).value))
    case Takes(v) => Genuine(cat, v) && v.id !in mem.tombs && At(mem.slots, SlotOf(v)) == Some(v)
  }

  function TombsAfter(fx: Effect, q: seq<Id>): seq<Id> {
    if fx.Takes? then Bury(q, fx.v.id) else q
  }

  lemma MemoryActs(cat: Catalogue, mem: Store, m: MemOp)
    requires Wf(cat, mem) && (m.Publish? ==> Genuine(cat, m.e))
    ensures var fx := EffectOf(mem, m);
            && Sane(cat, mem, fx)
            && Do(mem, m).tombs == TombsAfter(fx, mem.tombs)
            && (!m.Evict? ==> Acts(fx, mem.slots, Do(mem, m).slots))
            && (m.Evict? ==>
                  forall sl :: At(Do(mem, m).slots, sl).None? || At(Do(mem, m).slots, sl) == At(mem.slots, sl))
  {
    hide Bury, Before, KeyOf;
    if m.Retract? && Holds(mem, m.id) {
      var v := HolderOf(mem, m.id);
      forall sl ensures At(Do(mem, m).slots, sl) == Act(Takes(v), sl, At(mem.slots, sl)) {
        RetractOnReplay(cat, mem, v, sl);
      }
    }
  }

  /** Replayed on any store whose tombstones are among the latest of memory's, the records of
      an operation have its effect. */
  lemma ReplayActs(cat: Catalogue, mem: Store, r: Store, m: MemOp)
    requires Wf(cat, mem) && Wf(cat, r) && Tail(r.tombs, mem.tombs) && (m.Publish? ==> Genuine(cat, m.e))
    ensures var r' := Run(r, Records(mem, m));
            && Acts(EffectOf(mem, m), r.slots, r'.slots)
            && r'.tombs == TombsAfter(EffectOf(mem, m), r.tombs)
  {
    hide Bury, Before, KeyOf;
    match m {
      case Publish(e) =>
        if !IsEphemeral(e) && Accepts(mem, e) { PublishOnReplay(cat, mem, r, e); }
      case Retract(id) =>
        if Holds(mem, id) {
          var v := HolderOf(mem, id);
          forall sl ensures At(Run(r, Records(mem, m)).slots, sl) == Act(Takes(v), sl, At(r.slots, sl)) {
            RetractOnReplay(cat, r, v, sl);
          }
          Run1(r, OpDelete(id));
        }
      case Evict(id) =>
    }
  }

  /** The first option ranks no lower than the second; an empty slot ranks lowest. */
  predicate AtLeast(a: Option<Event>, b: Option<Event>) {
    b.None? || (a.Some? && (a.value == b.value || Before(a.value, b.value)))
  }

  ghost predicate InSlot(cat: Catalogue, sl: Slot, x: Option<Event>) {
    x.Some? ==> SlotOf(x.value) == sl && Genuine(cat, x.value)
  }

  lemma AtLeastTransitive(a: Option<Event>, b: Option<Event>, c: Option<Event>)
    requires AtLeast(a, b) && AtLeast(b, c)
    ensures AtLeast(a, c)
  {
    if c.Some? && a.value != b.value && b.value != c.value { BeforeTransitive(a.value, b.value, c.value); }
  }

  lemma AtLeastAntisymmetric(a: Option<Event>, b: Option<Event>)
    requires AtLeast(a, b) && AtLeast(b, a)
    ensures a == b
  {
    if a.Some? && a != b { BeforeTotal(a.value, b.value); }
  }

  /** The effect of an insert raises a slot at least to the event, and never lowers it. */
  lemma AddsRaises(cat: Catalogue, e: Event, x: Option<Event>)
    requires Genuine(cat, e) && InSlot(cat, SlotOf(e), x)
    ensures AtLeast(Act(Adds(e), SlotOf(e), x), Some(e)) && AtLeast(Act(Adds(e), SlotOf(e), x), x)
  {
    if x.Some? { RivalsAreOrdered(cat, e, x.value); }
  }

  // ---------------------------------------------------------------- tombstones

  function Deletes(log: seq<Op>): nat {
    if log == [] then 0 else Deletes(log[..|log| - 1]) + if log[|log| - 1].OpDelete? then 1 else 0
  }

  /** The queue a replay builds: the latest of memory's tombstones, as many as the log has
      tombstone records, up to the bound; and every id the log deletes that memory still
      remembers is among them. */
  ghost predicate TombsKept(log: seq<Op>, mem: Store) {
    var q := Run(EMPTY, log).tombs;
    && Tail(q, mem.tombs)
    && |q| == (if Deletes(log) < MAX_TOMBSTONES then Deletes(log) else MAX_TOMBSTONES)
    && forall id :: OpDelete(id) in log && id in mem.tombs ==> id in q
  }

  /** Tombstones depend on the log alone. */
  lemma {:induction false} SameTombs(a: Store, b: Store, log: seq<Op>)
    requires a.tombs == b.tombs
    ensures Run(a, log).tombs == Run(b, log).tombs
  {
    hide Bury;
    if log != [] { SameTombs(a, b, log[..|log| - 1]); }
  }

  lemma {:induction false} DeletesAppend(a: seq<Op>, b: seq<Op>)
    ensures Deletes(a + b) == Deletes(a) + Deletes(b)
  {
    if b == [] {
      assert a + b == a;
    } else {
      assert (a + b)[..|a + b| - 1] == a + b[..|b| - 1];
      DeletesAppend(a, b[..|b| - 1]);
    }
  }

  lemma RecordsDelete(mem: Store, m: MemOp)
    ensures var fx := EffectOf(mem, m); Deletes(Records(mem, m)) == if fx.Takes? then 1 else 0
    ensures var fx := EffectOf(mem, m); forall id :: OpDelete(id) in Records(mem, m) <==> fx.Takes? && id == fx.v.id
  {
    hide Before, KeyOf;
    var records := Records(mem, m);
    assert records != [] ==> records[..|records| - 1] == [] || records[..|records| - 1] == [records[0]];
    assert Deletes([]) == 0;
    if |records| == 2 { assert [records[0]][..0] == []; }
  }

  lemma BuryLength(q: seq<Id>, id: Id)
    requires id !in q && |q| <= MAX_TOMBSTONES
    ensures |Bury(q, id)| == if |q| < MAX_TOMBSTONES then |q| + 1 else MAX_TOMBSTONES
    ensures id in Bury(q, id)
    ensures |q| < MAX_TOMBSTONES ==> forall x :: x in q ==> x in Bury(q, id)
    ensures forall x :: x in Bury(q, id) ==> x in q || x == id
  {
    var t := q + [id];
    assert t[|q|] == id;
    if |q| == MAX_TOMBSTONES { assert t[1..][|q| - 1] == id; }
  }

  lemma TailMembers(q: seq<Id>, of: seq<Id>)
    requires Tail(q, of)
    ensures forall x :: x in q ==> x in of
    ensures |q| == |of| ==> q == of
  {
  }

  lemma StepTombs(cat: Catalogue, log: seq<Op>, mem: Store, m: MemOp)
    requires Wf(cat, mem) && AllGenuine(cat, log) && TombsKept(log, mem) && (m.Publish? ==> Genuine(cat, m.e))
    ensures TombsKept(log + Records(mem, m), Do(mem, m))
  {
    hide Bury, Before, KeyOf, Records, Do;
    var fx := EffectOf(mem, m);
    MemoryActs(cat, mem, m);
    WfEmpty(cat);
    RunKeepsWf(cat, EMPTY, log);
    ReplayActs(cat, mem, Run(EMPTY, log), m);
    Wal.RunAppend(EMPTY, log, Records(mem, m));
    DeletesAppend(log, Records(mem, m));
    RecordsDelete(mem, m);
    if fx.Takes? {
      var q := Run(EMPTY, log).tombs;
      TailMembers(q, mem.tombs);
      TailBury(q, mem.tombs, fx.v.id);
      BuryLength(q, fx.v.id);
      BuryLength(mem.tombs, fx.v.id);
      TailMembers(Bury(q, fx.v.id), Bury(mem.tombs, fx.v.id));
    }
  }

  lemma WfEmpty(cat: Catalogue)
    ensures Wf(cat, EMPTY) && Bare(cat, EMPTY)
  {
  }

  // ---------------------------------------------------------------- replaying from any snapshot

  /** What a snapshot loads into an empty store. */
  ghost predicate Bare(cat: Catalogue, x: Store) {
    Wf(cat, x) && x.tombs == []
  }

  function Stripped(s: Store): Store {
    Store(s.slots, [])
  }

  lemma BareReplay(cat: Catalogue, x: Store, log: seq<Op>, mem: Store)
    requires Bare(cat, x) && AllGenuine(cat, log) && TombsKept(log, mem)
    ensures Wf(cat, Run(x, log)) && Run(x, log).tombs == Run(EMPTY, log).tombs
    ensures Tail(Run(x, log).tombs, mem.tombs)
  {
    RunKeepsWf(cat, x, log);
    SameTombs(x, EMPTY, log);
  }

  lemma SlotsAreTheirOwn(cat: Catalogue, s: Store, sl: Slot)
    requires Wf(cat, s)
    ensures InSlot(cat, sl, At(s.slots, sl))
  {
  }

  /** A replay leaves a slot as the snapshot had it, or makes it what a replay from nothing
      makes it; and never less than that. */
  ghost predicate Picks(x: Option<Event>, got: Option<Event>, fromNothing: Option<Event>) {
    (got == x || got == fromNothing) && AtLeast(got, fromNothing)
  }

  ghost predicate Selects(cat: Catalogue, log: seq<Op>) {
    forall x, sl :: Bare(cat, x) ==>
      Picks(At(x.slots, sl), At(Run(x, log).slots, sl), At(Run(EMPTY, log).slots, sl))
  }

  /** Where a replay from nothing fills a slot at all, it fills it no worse than memory does. */
  ghost predicate Leads(log: seq<Op>, mem: Store) {
    forall sl :: At(Run(EMPTY, log).slots, sl).None? || AtLeast(At(Run(EMPTY, log).slots, sl), At(mem.slots, sl))
  }

  lemma PicksStep(cat: Catalogue, sl: Slot, x: Option<Event>, got: Option<Event>, k: Option<Event>,
                  m: Option<Event>, fx: Effect)
    requires InSlot(cat, sl, got) && InSlot(cat, sl, k) && Picks(x, got, k)
    requires fx.Adds? ==> Genuine(cat, fx.e)
    requires fx.Takes? && SlotOf(fx.v) == sl ==> m == Some(fx.v) && (k.None? || AtLeast(k, m))
    ensures Picks(x, Act(fx, sl, got), Act(fx, sl, k))
  {
    hide Before, KeyOf;
    match fx {
      case Nothing =>
      case Adds(e) =>
        if sl == SlotOf(e) {
          AddsRaises(cat, e, got);
          if got.Some? && k.Some? && got != k && Before(e, got.value) { BeforeTransitive(e, got.value, k.value); }
          AtLeastTransitive(Act(fx, sl, got), got, k);
        }
      case Takes(v) =>
        if got == Some(v) && k.Some? && sl == SlotOf(v) { AtLeastAntisymmetric(got, k); }
    }
  }

  /** Both replays of a log grown by one operation are the old ones with its effect. */
  lemma BareStep(cat: Catalogue, x: Store, log: seq<Op>, mem: Store, m: MemOp)
    requires Bare(cat, x) && Wf(cat, mem) && AllGenuine(cat, log) && TombsKept(log, mem)
    requires m.Publish? ==> Genuine(cat, m.e)
    ensures Wf(cat, Run(x, log)) && Acts(EffectOf(mem, m), Run(x, log).slots, Run(x, log + Records(mem, m)).slots)
  {
    hide Run, Records, Wf, TombsKept, Acts;
    BareReplay(cat, x, log, mem);
    ReplayActs(cat, mem, Run(x, log), m);
    Wal.RunAppend(x, log, Records(mem, m));
  }

  lemma StepSelects(cat: Catalogue, log: seq<Op>, mem: Store, m: MemOp)
    requires Wf(cat, mem) && AllGenuine(cat, log) && TombsKept(log, mem) && (m.Publish? ==> Genuine(cat, m.e))
    requires Selects(cat, log) && Leads(log, mem)
    ensures Selects(cat, log + Records(mem, m)) && Leads(log + Records(mem, m), Do(mem, m))
  {
    hide Run, Records, Do, TombsKept, Wf, Bare, Act, EffectOf, AtLeast, Picks, KeyOf;
    var fx := EffectOf(mem, m);
    var log' := log + Records(mem, m);
    MemoryActs(cat, mem, m);
    WfEmpty(cat);
    BareStep(cat, EMPTY, log, mem, m);
    forall x, sl | Bare(cat, x)
      ensures Picks(At(x.slots, sl), At(Run(x, log').slots, sl), At(Run(EMPTY, log').slots, sl))
    {
      BareStep(cat, x, log, mem, m);
      SlotsAreTheirOwn(cat, Run(x, log), sl);
      SlotsAreTheirOwn(cat, Run(EMPTY, log), sl);
      assert At(Run(EMPTY, log).slots, sl).None? || AtLeast(At(Run(EMPTY, log).slots, sl), At(mem.slots, sl));
      PicksStep(cat, sl, At(x.slots, sl), At(Run(x, log).slots, sl), At(Run(EMPTY, log).slots, sl), At(mem.slots, sl),
                fx);
    }
    forall sl
      ensures At(Run(EMPTY, log').slots, sl).None? || AtLeast(At(Run(EMPTY, log').slots, sl), At(Do(mem, m).slots, sl))
    {
      SlotsAreTheirOwn(cat, Run(EMPTY, log), sl);
      MemoryMovesOn(cat, mem, m, sl);
      LeadsStep(cat, sl, At(Run(EMPTY, log).slots, sl), At(mem.slots, sl), At(Do(mem, m).slots, sl), fx, m.Evict?);
    }
  }

  /** One slot of memory through one operation. */
  ghost predicate MovesOn(sl: Slot, m: Option<Event>, m': Option<Event>, fx: Effect, evict: bool) {
    && (evict ==> fx.Nothing? && (m'.None? || m' == m))
    && (!evict ==> m' == Act(fx, sl, m))
    && (fx.Adds? && sl == SlotOf(fx.e) ==> m.None? || Before(fx.e, m.value))
    && (fx.Takes? && sl == SlotOf(fx.v) ==> m == Some(fx.v))
  }

  lemma LeadsStep(cat: Catalogue, sl: Slot, k: Option<Event>, m: Option<Event>, m': Option<Event>, fx: Effect,
                  evict: bool)
    requires InSlot(cat, sl, k) && InSlot(cat, sl, m) && (k.None? || AtLeast(k, m))
    requires MovesOn(sl, m, m', fx, evict) && (fx.Adds? ==> Genuine(cat, fx.e))
    ensures Act(fx, sl, k).None? || AtLeast(Act(fx, sl, k), m')
  {
    hide Before, KeyOf;
    if fx.Adds? && sl == SlotOf(fx.e) { AddsRaises(cat, fx.e, k); }
  }

  // ---------------------------------------------------------------- the replay and memory

  ghost predicate Dominates(mem: Store, r: Store) {
    forall sl :: AtLeast(At(r.slots, sl), At(mem.slots, sl))
  }

  /** Replayed over a snapshot of memory itself, the log loses nothing of it. */
  ghost predicate Absorbs(log: seq<Op>, mem: Store) {
    Dominates(mem, Run(Stripped(mem), log))
  }

  lemma DominatesStep(cat: Catalogue, sl: Slot, got: Option<Event>, m: Option<Event>, m': Option<Event>, fx: Effect,
                      evict: bool)
    requires InSlot(cat, sl, got) && InSlot(cat, sl, m) && MovesOn(sl, m, m', fx, evict) &&
             (fx.Adds? ==> Genuine(cat, fx.e))
    requires m' == m ==> AtLeast(got, m)
    requires !(fx.Adds? && sl == SlotOf(fx.e)) ==> m' == m || m'.None?
    ensures AtLeast(Act(fx, sl, got), m')
  {
    hide Before, KeyOf;
    if fx.Adds? && sl == SlotOf(fx.e) {
      AddsRaises(cat, fx.e, got);
      if m' == m && m.Some? { AtLeastTransitive(Act(fx, sl, got), got, m); }
    }
  }

  lemma MemoryMovesOn(cat: Catalogue, mem: Store, m: MemOp, sl: Slot)
    requires Wf(cat, mem) && (m.Publish? ==> Genuine(cat, m.e))
    ensures var fx := EffectOf(mem, m);
            var a, b := At(mem.slots, sl), At(Do(mem, m).slots, sl);
            && MovesOn(sl, a, b, fx, m.Evict?) && InSlot(cat, sl, a)
            && (fx.Adds? ==> Genuine(cat, fx.e))
            && (!(fx.Adds? && sl == SlotOf(fx.e)) ==> b == a || b.None?)
            && (fx.Adds? && sl == SlotOf(fx.e) ==> b == Some(fx.e))
  {
    hide Do, Before, KeyOf;
    MemoryActs(cat, mem, m);
    SlotsAreTheirOwn(cat, mem, sl);
  }

  /** What happens in a slot depends on that slot alone. */
  lemma {:induction false} SlotsAreIndependent(a: Store, b: Store, log: seq<Op>, sl: Slot)
    requires a.tombs == b.tombs && At(a.slots, sl) == At(b.slots, sl)
    ensures At(Run(a, log).slots, sl) == At(Run(b, log).slots, sl)
  {
    hide Bury, Before, KeyOf;
    if log != [] {
      var before := log[..|log| - 1];
      SlotsAreIndependent(a, b, before, sl);
      SameTombs(a, b, before);
    }
  }

  lemma StepAbsorbs(cat: Catalogue, log: seq<Op>, mem: Store, m: MemOp)
    requires Wf(cat, mem) && AllGenuine(cat, log) && TombsKept(log, mem) && (m.Publish? ==> Genuine(cat, m.e))
    requires Absorbs(log, mem)
    ensures Absorbs(log + Records(mem, m), Do(mem, m))
  {
    hide Run, Records, Do, TombsKept, Act, EffectOf, AtLeast, KeyOf, MovesOn;
    var mem' := Do(mem, m);
    var x, x' := Stripped(mem), Stripped(mem');
    DoKeepsWf(cat, mem, m);
    BareStep(cat, x', log, mem, m);
    forall sl ensures AtLeast(At(Run(x', log + Records(mem, m)).slots, sl), At(mem'.slots, sl)) {
      MemoryMovesOn(cat, mem, m, sl);
      SlotsAreTheirOwn(cat, Run(x', log), sl);
      if At(mem'.slots, sl) == At(mem.slots, sl) {
        SlotsAreIndependent(x, x', log, sl);
      }
      DominatesStep(cat, sl, At(Run(x', log).slots, sl), At(mem.slots, sl), At(mem'.slots, sl), EffectOf(mem, m),
                    m.Evict?);
    }
  }

  /** A buried event is held only where the snapshot held it. */
  ghost predicate Shuns(x: Option<Event>, got: Option<Event>, tombs: seq<Id>) {
    got.Some? && got.value.id in tombs ==> got == x
  }

  ghost predicate ShunsAll(cat: Catalogue, log: seq<Op>, mem: Store) {
    forall x, sl :: Bare(cat, x) ==> Shuns(At(x.slots, sl), At(Run(x, log).slots, sl), mem.tombs)
  }

  lemma ShunsStep(cat: Catalogue, sl: Slot, x: Option<Event>, got: Option<Event>, tombs: seq<Id>, fx: Effect)
    requires InSlot(cat, sl, got) && Shuns(x, got, tombs)
    requires fx.Adds? ==> fx.e.id !in tombs
    requires fx.Takes? ==> Genuine(cat, fx.v)
    ensures Shuns(x, Act(fx, sl, got), TombsAfter(fx, tombs))
  {
    hide KeyOf, Before;
  }

  lemma StepShuns(cat: Catalogue, log: seq<Op>, mem: Store, m: MemOp)
    requires Wf(cat, mem) && AllGenuine(cat, log) && TombsKept(log, mem) && (m.Publish? ==> Genuine(cat, m.e))
    requires ShunsAll(cat, log, mem)
    ensures ShunsAll(cat, log + Records(mem, m), Do(mem, m))
  {
    hide Run, Records, Do, TombsKept, Act, EffectOf, Shuns, KeyOf, Bare, Wf, TombsAfter;
    MemoryActs(cat, mem, m);
    forall x, sl | Bare(cat, x)
      ensures Shuns(At(x.slots, sl), At(Run(x, log + Records(mem, m)).slots, sl), Do(mem, m).tombs)
    {
      BareStep(cat, x, log, mem, m);
      SlotsAreTheirOwn(cat, Run(x, log), sl);
      ShunsStep(cat, sl, At(x.slots, sl), At(Run(x, log).slots, sl), mem.tombs, EffectOf(mem, m));
    }
  }

  /** Replayed over a snapshot of memory itself, the log gives memory back; and from nothing it
      gives part of it. */
  ghost predicate Mirrors(log: seq<Op>, mem: Store) {
    && Run(Stripped(mem), log).slots == mem.slots
    && forall sl :: At(Run(EMPTY, log).slots, sl).None? || At(Run(EMPTY, log).slots, sl) == At(mem.slots, sl)
  }

  lemma MirrorsStep(cat: Catalogue, sl: Slot, m: Option<Event>, m': Option<Event>, k: Option<Event>,
                    got: Option<Event>, fx: Effect)
    requires InSlot(cat, sl, got) && MovesOn(sl, m, m', fx, false)
    requires k.None? || k == m
    requires m' == m ==> got == m
    requires m'.None? ==> got == k
    requires got == m' || got == k
    ensures Act(fx, sl, got) == m' && (Act(fx, sl, k).None? || Act(fx, sl, k) == m')
  {
    hide KeyOf, Before;
    if fx.Adds? { BeforeIrreflexiveAt(fx.e); }
  }

  lemma BeforeIrreflexiveAt(e: Event)
    ensures !Before(e, e)
  {
    BeforeIrreflexive(e);
  }

  lemma StepMirrors(cat: Catalogue, log: seq<Op>, mem: Store, m: MemOp)
    requires Wf(cat, mem) && AllGenuine(cat, log) && TombsKept(log, mem) && (m.Publish? ==> Genuine(cat, m.e))
    requires Selects(cat, log) && Mirrors(log, mem) && !m.Evict?
    ensures Mirrors(log + Records(mem, m), Do(mem, m))
  {
    hide Run, Records, Do, TombsKept, Act, EffectOf, KeyOf, MovesOn, AtLeast;
    var mem' := Do(mem, m);
    var x, x' := Stripped(mem), Stripped(mem');
    DoKeepsWf(cat, mem, m);
    WfEmpty(cat);
    BareStep(cat, x', log, mem, m);
    BareStep(cat, EMPTY, log, mem, m);
    forall sl
      ensures At(Run(x', log + Records(mem, m)).slots, sl) == At(mem'.slots, sl)
      ensures var k := At(Run(EMPTY, log + Records(mem, m)).slots, sl); k.None? || k == At(mem'.slots, sl)
    {
      MemoryMovesOn(cat, mem, m, sl);
      SlotsAreTheirOwn(cat, Run(x', log), sl);
      var a, b, got := At(mem.slots, sl), At(mem'.slots, sl), At(Run(x', log).slots, sl);
      if b == a { SlotsAreIndependent(x, x', log, sl); }
      if b.None? { SlotsAreIndependent(EMPTY, x', log, sl); }
      assert Picks(At(x'.slots, sl), got, At(Run(EMPTY, log).slots, sl));
      MirrorsStep(cat, sl, a, b, At(Run(EMPTY, log).slots, sl), got, EffectOf(mem, m));
    }
    SlotsAgree(mem'.slots, Run(x', log + Records(mem, m)).slots);
  }

  lemma SlotsAgree(a: map<Slot, Event>, b: map<Slot, Event>)
    requires forall sl :: At(b, sl) == At(a, sl)
    ensures a == b
  {
    forall sl ensures sl in a <==> sl in b { assert At(a, sl) == At(b, sl); }
    forall sl | sl in a ensures a[sl] == b[sl] { assert At(a, sl) == At(b, sl); }
  }

  /** What recovery must give back of memory. */
  ghost predicate Covers(mem: Store, r: Store) {
    && Dominates(mem, r)
    && forall sl :: sl in r.slots ==> r.slots[sl].id !in mem.tombs
  }

  lemma StepCovers(cat: Catalogue, mem: Store, r: Store, m: MemOp)
    requires Wf(cat, mem) && Wf(cat, r) && Tail(r.tombs, mem.tombs) && (m.Publish? ==> Genuine(cat, m.e))
    requires Covers(mem, r)
    ensures Covers(Do(mem, m), Run(r, Records(mem, m)))
    ensures r.slots == mem.slots && !m.Evict? ==> Run(r, Records(mem, m)).slots == Do(mem, m).slots
  {
    hide Run, Records, Do, Act, EffectOf, AtLeast, KeyOf, MovesOn, TombsAfter;
    var r', mem', fx := Run(r, Records(mem, m)), Do(mem, m), EffectOf(mem, m);
    ReplayActs(cat, mem, r, m);
    MemoryActs(cat, mem, m);
    forall sl
      ensures AtLeast(At(r'.slots, sl), At(mem'.slots, sl))
      ensures sl in r'.slots ==> r'.slots[sl].id !in mem'.tombs
    {
      MemoryMovesOn(cat, mem, m, sl);
      SlotsAreTheirOwn(cat, r, sl);
      DominatesStep(cat, sl, At(r.slots, sl), At(mem.slots, sl), At(mem'.slots, sl), fx, m.Evict?);
      ShunsStep(cat, sl, None, At(r.slots, sl), mem.tombs, fx);
      assert Shuns(None, At(r'.slots, sl), mem'.tombs);
    }
    if r.slots == mem.slots && !m.Evict? { SlotsAgree(mem'.slots, r'.slots); }
  }

  /** What replay holds was in the store it started from, or is inserted by a record. */
  lemma {:induction false} ReplayInventsNothing(x: Store, log: seq<Op>, e: Event)
    requires e in Live(Run(x, log))
    ensures e in Live(x) || OpInsert(e) in log
  {
    hide Bury, Before, KeyOf;
    if log != [] {
      var n := |log| - 1;
      if e in Live(Run(x, log[..n])) {
        ReplayInventsNothing(x, log[..n], e);
      } else {
        assert log[n] == OpInsert(e);
      }
    }
  }

  lemma RecordsInsert(mem: Store, m: MemOp, e: Event)
    requires OpInsert(e) in Records(mem, m)
    ensures e in Live(Do(mem, m))
  {
    assert Do(mem, m).slots[SlotOf(e)] == e;
  }

  // ---------------------------------------------------------------- logs that memory agrees with

  /** What holds between memory and any log its operations were appended to. */
  ghost predicate Settled(cat: Catalogue, log: seq<Op>, mem: Store) {
    AllGenuine(cat, log) && TombsKept(log, mem) && ShunsAll(cat, log, mem) && Absorbs(log, mem)
  }

  lemma StepSettled(cat: Catalogue, log: seq<Op>, mem: Store, m: MemOp)
    requires Wf(cat, mem) && Settled(cat, log, mem) && (m.Publish? ==> Genuine(cat, m.e))
    ensures Settled(cat, log + Records(mem, m), Do(mem, m))
  {
    hide TombsKept, ShunsAll, Absorbs, Do;
    StepTombs(cat, log, mem, m);
    StepShuns(cat, log, mem, m);
    StepAbsorbs(cat, log, mem, m);
  }

  lemma NothingLogged(cat: Catalogue, mem: Store)
    requires Wf(cat, mem)
    ensures Settled(cat, [], mem) && Selects(cat, []) && Leads([], mem) && Mirrors([], mem)
  {
    assert Tail([], mem.tombs);
  }

  /** A snapshot of memory, with the log replayed over it, covers memory. */
  lemma SnapshotCovers(cat: Catalogue, log: seq<Op>, mem: Store, x: Store)
    requires Wf(cat, mem) && Settled(cat, log, mem) && x == Stripped(mem)
    ensures Covers(mem, Run(x, log))
    ensures Mirrors(log, mem) ==> Run(x, log).slots == mem.slots
  {
    hide Run, TombsKept, AtLeast;
    var r := Run(x, log);
    assert Bare(cat, x);
    forall sl | sl in r.slots ensures r.slots[sl].id !in mem.tombs {
      assert Shuns(At(x.slots, sl), At(r.slots, sl), mem.tombs);
    }
  }

  /** Replaying a log a second time, over its own result, changes nothing. */
  lemma ReplayIsIdempotent(cat: Catalogue, log: seq<Op>, x: Store)
    requires Bare(cat, x) && AllGenuine(cat, log) && Selects(cat, log)
    ensures Run(Stripped(Run(x, log)), log).slots == Run(x, log).slots
  {
    hide Run, AtLeast;
    RunKeepsWf(cat, x, log);
    var r := Run(x, log);
    var again := Stripped(r);
    assert Bare(cat, again);
    forall sl ensures At(Run(again, log).slots, sl) == At(r.slots, sl) {
      assert Picks(At(x.slots, sl), At(r.slots, sl), At(Run(EMPTY, log).slots, sl));
      assert Picks(At(again.slots, sl), At(Run(again, log).slots, sl), At(Run(EMPTY, log).slots, sl));
      if At(r.slots, sl) == At(x.slots, sl) { SlotsAreIndependent(x, again, log, sl); }
    }
    SlotsAgree(r.slots, Run(again, log).slots);
  }

  /** Every log that memory wrote, evictions and all. */
  lemma {:induction false} LogSettles(cat: Catalogue, base: Store, ms: seq<MemOp>)
    requires Wf(cat, base) && GenuineOps(cat, ms)
    ensures Wf(cat, DoAll(base, ms)) && Settled(cat, Log(base, ms), DoAll(base, ms))
    ensures Selects(cat, Log(base, ms)) && Leads(Log(base, ms), DoAll(base, ms))
    ensures NoEvictions(ms) ==> Mirrors(Log(base, ms), DoAll(base, ms))
  {
    hide Settled, Selects, Leads, Mirrors, Do, Records, Wf;
    if ms == [] {
      NothingLogged(cat, base);
    } else {
      var before, m := ms[..|ms| - 1], ms[|ms| - 1];
      LogSettles(cat, base, before);
      var log, mem := Log(base, before), DoAll(base, before);
      SettledMeans(cat, log, mem);
      DoKeepsWf(cat, mem, m);
      StepSettled(cat, log, mem, m);
      StepSelects(cat, log, mem, m);
      if NoEvictions(ms) { StepMirrors(cat, log, mem, m); }
    }
  }

  lemma SettledMeans(cat: Catalogue, log: seq<Op>, mem: Store)
    requires Settled(cat, log, mem)
    ensures AllGenuine(cat, log) && TombsKept(log, mem)
  {
  }

  /** Replaying a log over the result of an earlier replay of it, whatever that started from and
      whatever was evicted meanwhile, changes nothing. */
  lemma LogIsIdempotent(cat: Catalogue, base: Store, ms: seq<MemOp>, x: Store)
    requires Wf(cat, base) && GenuineOps(cat, ms) && Bare(cat, x)
    ensures var log := Log(base, ms); Run(Stripped(Run(x, log)), log).slots == Run(x, log).slots
  {
    LogSettles(cat, base, ms);
    ReplayIsIdempotent(cat, Log(base, ms), x);
  }

  /** Replaying a whole log over a snapshot taken anywhere along it loses nothing that memory
      holds at its end and brings back nothing buried; without evictions it ends exactly where
      memory ended. */
  lemma {:induction false} ReplayOverSnapshot(cat: Catalogue, base: Store, ms: seq<MemOp>, k: nat, x: Store)
    requires Wf(cat, base) && GenuineOps(cat, ms) && k <= |ms|
    requires Bare(cat, x) && x.slots == DoAll(base, ms[..k]).slots
    ensures Covers(DoAll(base, ms), Run(x, Log(base, ms)))
    ensures NoEvictions(ms) ==> Run(x, Log(base, ms)).slots == DoAll(base, ms).slots
    decreases |ms| - k
  {
    hide Run, DoAll, Log, Wf, Covers, Records, Do, Settled, Selects, Leads, Mirrors, TombsKept;
    LogSettles(cat, base, ms);
    if k == |ms| {
      assert ms[..k] == ms;
      SnapshotCovers(cat, Log(base, ms), DoAll(base, ms), x);
    } else {
      var n := |ms| - 1;
      var before, m := ms[..n], ms[n];
      assert before[..k] == ms[..k] && ms == before + [m];
      ReplayOverSnapshot(cat, base, before, k, x);
      LogSettles(cat, base, before);
      SettledMeans(cat, Log(base, before), DoAll(base, before));
      OneMore(base, before, m);
      Wal.RunAppend(x, Log(base, before), Records(DoAll(base, before), m));
      BareReplay(cat, x, Log(base, before), DoAll(base, before));
      StepCovers(cat, DoAll(base, before), Run(x, Log(base, before)), m);
    }
  }

  /** A log in two parts, replayed in one go or with the tombstones of the first part forgotten. */
  ghost predicate Splits(cat: Catalogue, prior: seq<Op>, log: seq<Op>) {
    forall x :: Bare(cat, x) ==> Run(x, prior + log).slots == Run(Stripped(Run(x, prior)), log).slots
  }

  lemma StepSplits(cat: Catalogue, prior: seq<Op>, log: seq<Op>, mem: Store, m: MemOp)
    requires Wf(cat, mem) && Splits(cat, prior, log) && (m.Publish? ==> Genuine(cat, m.e))
    requires AllGenuine(cat, prior + log) && TombsKept(prior + log, mem) && TombsKept(log, mem)
    ensures Splits(cat, prior, log + Records(mem, m))
  {
    hide Run, Records, Do, TombsKept, EffectOf, Act;
    var records := Records(mem, m);
    assert AllGenuine(cat, prior) by { assert forall i :: 0 <= i < |prior| ==> (prior + log)[i] == prior[i]; }
    assert AllGenuine(cat, log) by { assert forall i :: 0 <= i < |log| ==> (prior + log)[|prior| + i] == log[i]; }
    assert prior + (log + records) == (prior + log) + records;
    forall x | Bare(cat, x) ensures Run(x, prior + (log + records)).slots ==
        Run(Stripped(Run(x, prior)), log + records).slots {
      RunKeepsWf(cat, x, prior);
      var z := Stripped(Run(x, prior));
      assert Bare(cat, z);
      BareStep(cat, x, prior + log, mem, m);
      BareStep(cat, z, log, mem, m);
      SlotsAgree(Run(z, log + records).slots, Run(x, (prior + log) + records).slots);
    }
  }

  lemma SplitAtEnd(cat: Catalogue, prior: seq<Op>)
    ensures Splits(cat, prior, [])
  {
    assert prior + [] == prior;
  }

  /** The part of a log after a cut, on memory as a replay of the whole leaves it. */
  lemma TailSettled(cat: Catalogue, prior: seq<Op>, log: seq<Op>, mem: Store, x: Store)
    requires Bare(cat, x) && Settled(cat, log, mem) && TombsKept(prior + log, mem) && AllGenuine(cat, prior + log)
    requires Selects(cat, log) && Splits(cat, prior, log)
    ensures Settled(cat, log, Run(x, prior + log))
  {
    hide Run, AtLeast, Selects, Deletes;
    var mem' := Run(x, prior + log);
    assert AllGenuine(cat, prior) by { assert forall i :: 0 <= i < |prior| ==> (prior + log)[i] == prior[i]; }
    RunKeepsWf(cat, x, prior);
    var z := Stripped(Run(x, prior));
    assert Bare(cat, z);
    ReplayIsIdempotent(cat, log, z);
    assert Stripped(mem') == Stripped(Run(z, log));
    SelfDominates(mem', Run(Stripped(mem'), log));
    SameTombs(x, EMPTY, prior + log);
    DeletesAppend(prior, log);
    TailOfTails(Run(EMPTY, log).tombs, mem'.tombs, mem.tombs);
    TailMembers(mem'.tombs, mem.tombs);
    forall y, sl | Bare(cat, y) ensures Shuns(At(y.slots, sl), At(Run(y, log).slots, sl), mem'.tombs) {
      assert Shuns(At(y.slots, sl), At(Run(y, log).slots, sl), mem.tombs);
    }
  }

  lemma SelfDominates(mem: Store, r: Store)
    requires r.slots == mem.slots
    ensures Dominates(mem, r)
  {
  }

  lemma TailOfTails(a: seq<Id>, b: seq<Id>, of: seq<Id>)
    requires Tail(a, of) && Tail(b, of) && |a| <= |b|
    ensures Tail(a, b)
  {
  }
}
