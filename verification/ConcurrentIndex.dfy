/** `EventIndex` under any number of threads (src/store/index.rs:249-489, 566-641).
    Every operation on a shared map, set or counter is one indivisible step, and any thread
    may take the next step. The entry guard of `by_replaceable` is a lock per key; in the
    program it covers a whole map shard, so the machine allows more interleavings. */
module ConcurrentIndex {
  import opened Events
  import opened IndexKeys
  import opened EventIndexes
  import StoreSpec

  /** Where `internal_remove` returns to. */
  datatype Cont =
    | Finish
    | Resume(newcomer: Event)  // `insert`, still holding the guard of the newcomer's key
    | Entomb(dead: Id)         // `delete_by_id`

  /** The next shared step of a thread. */
  datatype PC =
    | Idle
    | Consult(e: Event)                                  // insert: tombstone lookup
    | Claim(e: Event)                                    // insert: entry guard
    | Compare(e: Event, oldId: Id)                       // insert: read the stored version
    | TakeOver(e: Event, oldId: Id)                      // insert: write the key
    | Put(e: Event)                                      // insert: by_id.insert
    | EarlyCheck(e: Event)                               // insert: still the winner?
    | EarlyUndo(e: Event)                                // insert: by_id.remove, early exit
    | CountBytes(e: Event)
    | CountOne(e: Event)
    | Index(e: Event, todo: seq<BucketKey>)              // insert: secondary indexes
    | FinalCheck(e: Event)                               // insert: still in by_id?
    | FinalWinner(e: Event)                              // insert: still the winner?
    | Undo(e: Event)                                     // cleanup_event: by_id.remove
    | Take(id: Id, dropKey: bool, cont: Cont)            // internal_remove: by_id.remove
    | UncountBytes(e: Event, dropKey: bool, cont: Cont)
    | UncountOne(e: Event, dropKey: bool, cont: Cont)
    | DropKey(e: Event, cont: Cont)                      // internal_remove: by_replaceable.remove
    | Unindex(e: Event, todo: seq<BucketKey>, cont: Cont)
    | Inter(dead: Id)                                    // delete_by_id: tombstone

  /** What the threads share. */
  datatype Shared = Shared(
    byId: map<Id, Event>,
    entries: set<(BucketKey, Event)>,
    byReplaceable: map<ReplacementKey, Id>,
    guard: map<ReplacementKey, nat>,
    tombs: seq<Id>,
    bytes: int,
    count: int,
    /** History: early exits that found their event already gone, and its bytes. */
    missed: nat,
    missedBytes: nat)

  datatype State = State(g: Shared, threads: seq<PC>)

  function Start(threads: nat): State {
    State(Shared(map[], {}, map[], map[], [], 0, 0, 0, 0), seq(threads, i => Idle))
  }

  // ---------------------------------------------------------------- steps

  datatype Turn = Turn(g: Shared, pc: PC)

  predicate Wins(g: Shared, e: Event) {
    KeyOf(e) in g.byReplaceable && g.byReplaceable[KeyOf(e)] == e.id
  }

  function Return(g: Shared, cont: Cont): Turn {
    match cont
    case Finish => Turn(g, Idle)
    case Resume(f) => Turn(g.(guard := g.guard - {KeyOf(f)}), Put(f))
    case Entomb(id) => Turn(g, Inter(id))
  }

  /** The steps of `insert` up to the primary map. */
  function ClaimTurn(g: Shared, t: nat, pc: PC): Turn {
    match pc
    case Consult(e) =>
      Turn(g, if e.id in g.tombs then Idle else if IsReplaceable(e) then Claim(e) else Put(e))
    case Claim(e) =>
      if KeyOf(e) in g.guard then Turn(g, pc)  // blocked
      else if KeyOf(e) in g.byReplaceable then
        Turn(g.(guard := g.guard[KeyOf(e) := t]), Compare(e, g.byReplaceable[KeyOf(e)]))
      else Turn(g.(byReplaceable := g.byReplaceable[KeyOf(e) := e.id]), Put(e))
    case Compare(e, oldId) =>
      if oldId in g.byId && !Before(e, g.byId[oldId]) then Turn(g.(guard := g.guard - {KeyOf(e)}), Idle)
      else Turn(g, TakeOver(e, oldId))
    case TakeOver(e, oldId) =>
      Turn(g.(byReplaceable := g.byReplaceable[KeyOf(e) := e.id]), Take(oldId, false, Resume(e)))
    case _ => Turn(g, pc)
  }

  /** The steps of `insert` from the primary map on. */
  function StoreTurn(g: Shared, pc: PC): Turn {
    match pc
    case Put(e) => Turn(g.(byId := g.byId[e.id := e]), if e.id in g.byId then Idle else EarlyCheck(e))
    case EarlyCheck(e) =>
      if !IsReplaceable(e) then Turn(g, CountBytes(e))
      else if KeyOf(e) in g.guard then Turn(g, pc)
      else Turn(g, if Wins(g, e) then CountBytes(e) else EarlyUndo(e))
    case EarlyUndo(e) =>
      if e.id in g.byId then Turn(g.(byId := g.byId - {e.id}), Idle)
      else Turn(g.(missed := g.missed + 1, missedBytes := g.missedBytes + |e.raw|), Idle)
    case CountBytes(e) => Turn(g.(bytes := g.bytes + |e.raw|), CountOne(e))
    case CountOne(e) => Turn(g.(count := g.count + 1), Index(e, KeysOf(e)))
    case Index(e, todo) =>
      if todo == [] then Turn(g, FinalCheck(e))
      else Turn(g.(entries := g.entries + {(todo[0], e)}), Index(e, todo[1..]))
    case FinalCheck(e) =>
      if e.id !in g.byId then Turn(g, Unindex(e, KeysOf(e), Finish))
      else Turn(g, if IsReplaceable(e) then FinalWinner(e) else Idle)
    case FinalWinner(e) =>
      if KeyOf(e) in g.guard then Turn(g, pc)
      else Turn(g, if Wins(g, e) then Idle else Undo(e))
    case Undo(e) =>
      if e.id in g.byId then Turn(g.(byId := g.byId - {e.id}), UncountBytes(e, false, Finish))
      else Turn(g, Unindex(e, KeysOf(e), Finish))
    case _ => Turn(g, pc)
  }

  /** The steps of `internal_remove` and `delete_by_id`. */
  function RemoveTurn(g: Shared, pc: PC): Turn {
    match pc
    case Take(id, dropKey, cont) =>
      if id in g.byId then Turn(g.(byId := g.byId - {id}), UncountBytes(g.byId[id], dropKey, cont))
      else Return(g, cont)
    case UncountBytes(e, dropKey, cont) => Turn(g.(bytes := g.bytes - |e.raw|), UncountOne(e, dropKey, cont))
    case UncountOne(e, dropKey, cont) =>
      Turn(g.(count := g.count - 1),
           if dropKey && IsReplaceable(e) then DropKey(e, cont) else Unindex(e, KeysOf(e), cont))
    case DropKey(e, cont) =>
      if KeyOf(e) in g.guard then Turn(g, pc)
      else Turn(g.(byReplaceable := g.byReplaceable - {KeyOf(e)}), Unindex(e, KeysOf(e), cont))
    case Unindex(e, todo, cont) =>
      if todo == [] then Return(g, cont)
      else Turn(g.(entries := g.entries - {(todo[0], e)}), Unindex(e, todo[1..], cont))
    case Inter(id) => Turn(g.(tombs := StoreSpec.Bury(g.tombs, id)), Idle)
    case _ => Turn(g, pc)
  }

  predicate Claiming(pc: PC) {
    pc.Consult? || pc.Claim? || pc.Compare? || pc.TakeOver?
  }

  predicate Removing(pc: PC) {
    pc.Take? || pc.UncountBytes? || pc.UncountOne? || pc.DropKey? || pc.Unindex? || pc.Inter?
  }

  /** One step of thread `t` standing at `pc`; a blocked or idle thread changes nothing. */
  function TakeTurn(g: Shared, t: nat, pc: PC): Turn {
    if Claiming(pc) then ClaimTurn(g, t, pc)
    else if Removing(pc) then RemoveTurn(g, pc)
    else StoreTurn(g, pc)
  }

  function Go(s: State, t: nat): State
    requires t < |s.threads|
  {
    var turn := TakeTurn(s.g, t, s.threads[t]);
    State(turn.g, s.threads[t := turn.pc])
  }

  datatype Command = Insert(e: Event) | Evict(id: Id) | Delete(id: Id)

  function Begin(c: Command): PC {
    match c
    case Insert(e) => Consult(e)
    case Evict(id) => Take(id, false, Finish)
    case Delete(id) => Take(id, true, Entomb(id))
  }

  datatype Action = Call(t: nat, c: Command) | Step(t: nat)

  function Next(s: State, a: Action): State {
    match a
    case Call(t, c) => if t < |s.threads| && s.threads[t] == Idle then State(s.g, s.threads[t := Begin(c)]) else s
    case Step(t) => if t < |s.threads| then Go(s, t) else s
  }

  function Run(s: State, schedule: seq<Action>): State {
    if schedule == [] then s else Next(Run(s, schedule[..|schedule| - 1]), schedule[|schedule| - 1])
  }

  ghost predicate Authentic(cat: Catalogue, schedule: seq<Action>) {
    forall i :: 0 <= i < |schedule| && schedule[i].Call? && schedule[i].c.Insert? ==> Genuine(cat, schedule[i].c.e)
  }

  ghost predicate AllIdle(s: State) {
    forall t :: 0 <= t < |s.threads| ==> s.threads[t] == Idle
  }

  // ---------------------------------------------------------------- events are genuine

  ghost predicate ContGenuine(cat: Catalogue, cont: Cont) {
    cont.Resume? ==> Genuine(cat, cont.newcomer) && IsReplaceable(cont.newcomer)
  }

  ghost predicate PcGenuine(cat: Catalogue, pc: PC) {
    match pc
    case Idle => true
    case Consult(e) => Genuine(cat, e)
    case Claim(e) => Genuine(cat, e) && IsReplaceable(e)
    case Compare(e, _) => Genuine(cat, e) && IsReplaceable(e)
    case TakeOver(e, _) => Genuine(cat, e) && IsReplaceable(e)
    case Put(e) => Genuine(cat, e)
    case EarlyCheck(e) => Genuine(cat, e)
    case EarlyUndo(e) => Genuine(cat, e) && IsReplaceable(e)
    case CountBytes(e) => Genuine(cat, e)
    case CountOne(e) => Genuine(cat, e)
    case Index(e, todo) => Genuine(cat, e) && forall k :: k in todo ==> k in KeysOf(e)
    case FinalCheck(e) => Genuine(cat, e)
    case FinalWinner(e) => Genuine(cat, e) && IsReplaceable(e)
    case Undo(e) => Genuine(cat, e) && IsReplaceable(e)
    case Take(_, _, cont) => ContGenuine(cat, cont)
    case UncountBytes(e, _, cont) => Genuine(cat, e) && ContGenuine(cat, cont)
    case UncountOne(e, _, cont) => Genuine(cat, e) && ContGenuine(cat, cont)
    case DropKey(e, cont) => Genuine(cat, e) && ContGenuine(cat, cont)
    case Unindex(e, todo, cont) => Genuine(cat, e) && ContGenuine(cat, cont)
    case Inter(_) => true
  }

  ghost predicate SharedGenuine(cat: Catalogue, g: Shared) {
    && OneEventPerId(cat, g.byId)
    && (forall x :: x in g.entries ==> Genuine(cat, x.1) && x.0 in KeysOf(x.1))
  }

  ghost predicate AllGenuine(cat: Catalogue, s: State) {
    && SharedGenuine(cat, s.g)
    && (forall t :: 0 <= t < |s.threads| ==> PcGenuine(cat, s.threads[t]))
  }

  lemma ClaimTurnKeepsGenuine(cat: Catalogue, g: Shared, t: nat, pc: PC)
    requires SharedGenuine(cat, g) && PcGenuine(cat, pc) && Claiming(pc)
    ensures var turn := ClaimTurn(g, t, pc); SharedGenuine(cat, turn.g) && PcGenuine(cat, turn.pc)
  {
  }

  lemma StoreTurnKeepsGenuine(cat: Catalogue, g: Shared, pc: PC)
    requires SharedGenuine(cat, g) && PcGenuine(cat, pc) && !Claiming(pc) && !Removing(pc)
    ensures var turn := StoreTurn(g, pc); SharedGenuine(cat, turn.g) && PcGenuine(cat, turn.pc)
  {
    hide KeysOf, KeyOf, IsReplaceable;
  }

  lemma RemoveTurnKeepsGenuine(cat: Catalogue, g: Shared, pc: PC)
    requires SharedGenuine(cat, g) && PcGenuine(cat, pc) && Removing(pc)
    ensures var turn := RemoveTurn(g, pc); SharedGenuine(cat, turn.g) && PcGenuine(cat, turn.pc)
  {
    hide KeysOf, KeyOf, IsReplaceable, StoreSpec.Bury;
  }

  lemma TurnKeepsGenuine(cat: Catalogue, g: Shared, t: nat, pc: PC)
    requires SharedGenuine(cat, g) && PcGenuine(cat, pc)
    ensures var turn := TakeTurn(g, t, pc); SharedGenuine(cat, turn.g) && PcGenuine(cat, turn.pc)
  {
    if Claiming(pc) {
      ClaimTurnKeepsGenuine(cat, g, t, pc);
    } else if Removing(pc) {
      RemoveTurnKeepsGenuine(cat, g, pc);
    } else {
      StoreTurnKeepsGenuine(cat, g, pc);
    }
  }

  // ---------------------------------------------------------------- counters

  /** What a thread still has to add to the event count to settle its own changes. */
  function Owed(pc: PC): int {
    match pc
    case EarlyCheck(_) => 1
    case EarlyUndo(_) => 1
    case CountBytes(_) => 1
    case CountOne(_) => 1
    case UncountBytes(_, _, _) => -1
    case UncountOne(_, _, _) => -1
    case _ => 0
  }

  function OwedBytes(pc: PC): int {
    match pc
    case EarlyCheck(e) => |e.raw|
    case EarlyUndo(e) => |e.raw|
    case CountBytes(e) => |e.raw|
    case UncountBytes(e, _, _) => -|e.raw|
    case _ => 0
  }

  function Sum(threads: seq<PC>, f: PC -> int): int {
    if threads == [] then 0 else f(threads[0]) + Sum(threads[1..], f)
  }

  lemma {:induction false} SumUpdate(threads: seq<PC>, f: PC -> int, t: nat, pc: PC)
    requires t < |threads|
    ensures Sum(threads[t := pc], f) == Sum(threads, f) - f(threads[t]) + f(pc)
  {
    if t == 0 {
      assert threads[t := pc][1..] == threads[1..];
    } else {
      assert threads[t := pc][1..] == threads[1..][t - 1 := pc];
      SumUpdate(threads[1..], f, t - 1, pc);
    }
  }

  lemma {:induction false} SumOfIdle(threads: seq<PC>, f: PC -> int)
    requires f(Idle) == 0 && forall t :: 0 <= t < |threads| ==> threads[t] == Idle
    ensures Sum(threads, f) == 0
  {
    if threads != [] { SumOfIdle(threads[1..], f); }
  }

  ghost predicate Balanced(s: State) {
    && s.g.count + Sum(s.threads, Owed) + s.g.missed == |s.g.byId|
    && s.g.bytes + Sum(s.threads, OwedBytes) + s.g.missedBytes == ByteSum(s.g.byId)
  }

  /** The event count as the thread sees it once it has settled what it owes. */
  function Settled(g: Shared, pc: PC): int {
    g.count + Owed(pc) + g.missed
  }

  function SettledBytes(g: Shared, pc: PC): int {
    g.bytes + OwedBytes(pc) + g.missedBytes
  }

  ghost predicate Moves(g: Shared, pc: PC, turn: Turn, events: int, bytes: int) {
    Settled(turn.g, turn.pc) == Settled(g, pc) + events && SettledBytes(turn.g, turn.pc) == SettledBytes(g, pc) + bytes
  }

  /** A step changes the primary map by at most one event, and pays for it or owes it. */
  ghost predicate Pays(g: Shared, pc: PC, turn: Turn) {
    || (turn.g.byId == g.byId && Moves(g, pc, turn, 0, 0))
    || (exists e :: Stored(g.byId, e) && turn.g.byId == g.byId - {e.id} && Moves(g, pc, turn, -1, -|e.raw|))
    || (exists e: Event :: e.id !in g.byId && turn.g.byId == g.byId[e.id := e] && Moves(g, pc, turn, 1, |e.raw|))
  }

  lemma PutPays(cat: Catalogue, g: Shared, e: Event)
    requires SharedGenuine(cat, g) && Genuine(cat, e)
    ensures Pays(g, Put(e), StoreTurn(g, Put(e)))
  {
    if e.id in g.byId { assert g.byId[e.id := e] == g.byId; }
  }

  lemma UndoPays(cat: Catalogue, g: Shared, e: Event)
    requires SharedGenuine(cat, g) && Genuine(cat, e)
    ensures Pays(g, EarlyUndo(e), StoreTurn(g, EarlyUndo(e)))
    ensures Pays(g, Undo(e), StoreTurn(g, Undo(e)))
  {
    hide KeysOf, KeyOf, IsReplaceable;
    if e.id in g.byId {
      assert Stored(g.byId, e);
      assert Moves(g, Undo(e), StoreTurn(g, Undo(e)), -1, -|e.raw|);
      assert Moves(g, EarlyUndo(e), StoreTurn(g, EarlyUndo(e)), -1, -|e.raw|);
    }
  }

  lemma StoreTurnPays(g: Shared, pc: PC)
    requires !Claiming(pc) && !Removing(pc) && !pc.Put? && !pc.EarlyUndo? && !pc.Undo?
    ensures Pays(g, pc, StoreTurn(g, pc))
  {
    hide KeysOf, KeyOf, IsReplaceable;
  }

  lemma TakePays(cat: Catalogue, g: Shared, pc: PC)
    requires SharedGenuine(cat, g) && pc.Take?
    ensures Pays(g, pc, RemoveTurn(g, pc))
  {
    var turn := RemoveTurn(g, pc);
    if pc.id in g.byId {
      var e := g.byId[pc.id];
      assert Stored(g.byId, e) && turn.pc == UncountBytes(e, pc.dropKey, pc.cont);
      assert turn.g.byId == g.byId - {e.id} && Moves(g, pc, turn, -1, -|e.raw|);
    } else {
      assert Moves(g, pc, turn, 0, 0);
    }
  }

  lemma RemoveTurnPays(g: Shared, pc: PC)
    requires Removing(pc) && !pc.Take?
    ensures Pays(g, pc, RemoveTurn(g, pc))
  {
    hide KeysOf, KeyOf, IsReplaceable, StoreSpec.Bury;
  }

  lemma TurnPays(cat: Catalogue, g: Shared, t: nat, pc: PC)
    requires SharedGenuine(cat, g) && PcGenuine(cat, pc)
    ensures Pays(g, pc, TakeTurn(g, t, pc))
  {
    hide StoreTurn, RemoveTurn, KeyOf, IsReplaceable, Before;
    if Claiming(pc) {
      assert TakeTurn(g, t, pc).g.byId == g.byId && Moves(g, pc, TakeTurn(g, t, pc), 0, 0);
    } else if pc.Put? {
      PutPays(cat, g, pc.e);
    } else if pc.EarlyUndo? || pc.Undo? {
      UndoPays(cat, g, pc.e);
    } else if pc.Take? {
      TakePays(cat, g, pc);
    } else if Removing(pc) {
      RemoveTurnPays(g, pc);
    } else {
      StoreTurnPays(g, pc);
    }
  }

  lemma WeighsMore(m: map<Id, Event>, e: Event)
    requires Stored(m, e)
    ensures |m| == |m - {e.id}| + 1 && ByteSum(m) == ByteSum(m - {e.id}) + |e.raw|
  {
    ByteSumWithout(m, e.id);
    assert m == (m - {e.id})[e.id := e];
  }

  /** The primary map grew by as much as the settled counts moved. */
  ghost predicate InStep(m: map<Id, Event>, n: map<Id, Event>, events: int, bytes: int) {
    |n| == |m| + events && ByteSum(n) == ByteSum(m) + bytes
  }

  lemma TakingOut(m: map<Id, Event>, n: map<Id, Event>, e: Event)
    requires Stored(m, e) && n == m - {e.id}
    ensures InStep(m, n, -1, -|e.raw|)
  {
    hide ByteSum;
    WeighsMore(m, e);
  }

  lemma PuttingIn(m: map<Id, Event>, n: map<Id, Event>, e: Event)
    requires e.id !in m && n == m[e.id := e]
    ensures InStep(m, n, 1, |e.raw|)
  {
    hide ByteSum;
    assert n - {e.id} == m;
    WeighsMore(n, e);
  }

  lemma PaidInFull(g: Shared, pc: PC, turn: Turn) returns (events: int, bytes: int)
    requires Pays(g, pc, turn)
    ensures InStep(g.byId, turn.g.byId, events, bytes) && Moves(g, pc, turn, events, bytes)
  {
    hide Moves, ByteSum;
    if turn.g.byId == g.byId && Moves(g, pc, turn, 0, 0) {
      events, bytes := 0, 0;
    } else if e :| Stored(g.byId, e) && turn.g.byId == g.byId - {e.id} && Moves(g, pc, turn, -1, -|e.raw|) {
      TakingOut(g.byId, turn.g.byId, e);
      events, bytes := -1, -|e.raw|;
    } else {
      var e: Event :| e.id !in g.byId && turn.g.byId == g.byId[e.id := e] && Moves(g, pc, turn, 1, |e.raw|);
      PuttingIn(g.byId, turn.g.byId, e);
      events, bytes := 1, |e.raw|;
    }
  }

  lemma GoKeepsBalance(cat: Catalogue, s: State, t: nat)
    requires t < |s.threads| && AllGenuine(cat, s) && Balanced(s)
    ensures Balanced(Go(s, t))
  {
    hide TakeTurn, Owed, OwedBytes, ByteSum, PcGenuine, OneEventPerId, Pays;
    var pc := s.threads[t];
    var turn := TakeTurn(s.g, t, pc);
    TurnPays(cat, s.g, t, pc);
    var _, _ := PaidInFull(s.g, pc, turn);
    SumUpdate(s.threads, Owed, t, turn.pc);
    SumUpdate(s.threads, OwedBytes, t, turn.pc);
  }

  // ---------------------------------------------------------------- orphans

  /** A thread that will yet look at, or take out, the entry of `e` in bucket `k`. */
  predicate Covers(pc: PC, k: BucketKey, e: Event) {
    match pc
    case EarlyCheck(x) => x == e
    case CountBytes(x) => x == e
    case CountOne(x) => x == e
    case Index(x, _) => x == e
    case FinalCheck(x) => x == e
    case UncountBytes(x, _, _) => x == e
    case UncountOne(x, _, _) => x == e
    case DropKey(x, _) => x == e
    case Unindex(x, todo, _) => x == e && k in todo
    case _ => false
  }

  ghost predicate Covered(s: State, k: BucketKey, e: Event) {
    exists t :: 0 <= t < |s.threads| && Covers(s.threads[t], k, e)
  }

  ghost predicate Stray(g: Shared, k: BucketKey, e: Event) {
    (k, e) in g.entries && !IsReplaceable(e) && !Stored(g.byId, e)
  }

  /** Every entry of an event that is not stored is in the hands of some thread. */
  ghost predicate NoStrays(s: State) {
    forall k, e :: Stray(s.g, k, e) ==> Covered(s, k, e)
  }

  /** The step takes care of the entry itself, or leaves it stray as it found it and was
      not the one covering it. */
  ghost predicate Minds(g: Shared, pc: PC, turn: Turn, k: BucketKey, e: Event) {
    Stray(turn.g, k, e) ==> Covers(turn.pc, k, e) || (Stray(g, k, e) && !Covers(pc, k, e))
  }

  lemma StoreTurnMinds(cat: Catalogue, g: Shared, pc: PC, k: BucketKey, e: Event)
    requires SharedGenuine(cat, g) && PcGenuine(cat, pc) && !Claiming(pc) && !Removing(pc)
    ensures Minds(g, pc, StoreTurn(g, pc), k, e)
  {
    if (k, e) in g.entries { assert (k, e).0 in KeysOf((k, e).1) && Genuine(cat, (k, e).1); }
  }

  lemma RemoveTurnMinds(cat: Catalogue, g: Shared, pc: PC, k: BucketKey, e: Event)
    requires SharedGenuine(cat, g) && PcGenuine(cat, pc) && Removing(pc)
    ensures Minds(g, pc, RemoveTurn(g, pc), k, e)
  {
    if (k, e) in g.entries { assert (k, e).0 in KeysOf((k, e).1); }
    if pc.Unindex? && pc.todo != [] { assert pc.todo == [pc.todo[0]] + pc.todo[1..]; }
  }

  lemma TurnMinds(cat: Catalogue, g: Shared, t: nat, pc: PC, k: BucketKey, e: Event)
    requires SharedGenuine(cat, g) && PcGenuine(cat, pc)
    ensures Minds(g, pc, TakeTurn(g, t, pc), k, e)
  {
    if Claiming(pc) {
    } else if Removing(pc) {
      RemoveTurnMinds(cat, g, pc, k, e);
    } else {
      StoreTurnMinds(cat, g, pc, k, e);
    }
  }

  // ---------------------------------------------------------------- uniqueness

  /** The key whose guard the thread holds. */
  function Guards(pc: PC): Option<ReplacementKey> {
    match pc
    case Compare(e, _) => Some(KeyOf(e))
    case TakeOver(e, _) => Some(KeyOf(e))
    case Take(_, _, cont) => if cont.Resume? then Some(KeyOf(cont.newcomer)) else None
    case UncountBytes(_, _, cont) => if cont.Resume? then Some(KeyOf(cont.newcomer)) else None
    case UncountOne(_, _, cont) => if cont.Resume? then Some(KeyOf(cont.newcomer)) else None
    case DropKey(_, cont) => if cont.Resume? then Some(KeyOf(cont.newcomer)) else None
    case Unindex(_, _, cont) => if cont.Resume? then Some(KeyOf(cont.newcomer)) else None
    case _ => None
  }

  /** The guard is this thread's, and the key it protects is the one the thread read. */
  ghost predicate HoldsGuard(g: Shared, t: nat, pc: PC) {
    && (Guards(pc).Some? ==> Guards(pc).value in g.guard && g.guard[Guards(pc).value] == t)
    && (pc.Compare? ==> KeyOf(pc.e) in g.byReplaceable && g.byReplaceable[KeyOf(pc.e)] == pc.oldId)
    && (pc.TakeOver? ==> KeyOf(pc.e) in g.byReplaceable && g.byReplaceable[KeyOf(pc.e)] == pc.oldId)
  }

  ghost predicate GuardsHeld(s: State) {
    forall t :: 0 <= t < |s.threads| ==> HoldsGuard(s.g, t, s.threads[t])
  }

  lemma TurnHoldsGuard(g: Shared, t: nat, pc: PC)
    requires HoldsGuard(g, t, pc)
    ensures var turn := TakeTurn(g, t, pc); HoldsGuard(turn.g, t, turn.pc)
  {
    hide KeysOf, KeyOf, IsReplaceable, StoreSpec.Bury, Before;
  }

  lemma TurnRespectsGuards(g: Shared, t: nat, pc: PC, u: nat, other: PC)
    requires t != u && HoldsGuard(g, t, pc) && HoldsGuard(g, u, other)
    ensures HoldsGuard(TakeTurn(g, t, pc).g, u, other)
  {
    hide KeysOf, KeyOf, IsReplaceable, StoreSpec.Bury, Before;
  }

  /** The thread is not on its way to dropping a replacement key. */
  ghost predicate KeepsKeys(cat: Catalogue, pc: PC) {
    match pc
    case Take(id, dropKey, _) => dropKey ==> !IsReplaceable(cat(id))
    case UncountBytes(e, dropKey, _) => dropKey ==> !IsReplaceable(e)
    case UncountOne(e, dropKey, _) => dropKey ==> !IsReplaceable(e)
    case DropKey(_, _) => false
    case _ => true
  }

  ghost predicate NoDrops(cat: Catalogue, s: State) {
    forall t :: 0 <= t < |s.threads| ==> KeepsKeys(cat, s.threads[t])
  }

  /** A thread that will yet check, or take out, the stored event `e`. */
  predicate Settles(pc: PC, e: Event) {
    match pc
    case EarlyCheck(x) => x == e
    case EarlyUndo(x) => x == e
    case CountBytes(x) => x == e
    case CountOne(x) => x == e
    case Index(x, _) => x == e
    case FinalCheck(x) => x == e
    case FinalWinner(x) => x == e
    case Undo(x) => x == e
    case Take(id, _, _) => id == e.id
    case _ => false
  }

  ghost predicate Unsettled(s: State, e: Event) {
    exists t :: 0 <= t < |s.threads| && Settles(s.threads[t], e)
  }

  ghost predicate Rival(g: Shared, e: Event) {
    Stored(g.byId, e) && IsReplaceable(e) && !Wins(g, e)
  }

  /** Every stored replaceable event is the one its key maps to, or in some thread's hands. */
  ghost predicate KeysSettled(s: State) {
    forall e :: Rival(s.g, e) ==> Unsettled(s, e)
  }

  /** The step takes the rival in hand, or leaves it one as it found it and was not the one
      handling it. */
  ghost predicate Handles(cat: Catalogue, g: Shared, pc: PC, turn: Turn, e: Event) {
    && (Rival(turn.g, e) ==> Settles(turn.pc, e) || (Rival(g, e) && !Settles(pc, e)))
    && KeepsKeys(cat, turn.pc)
  }

  lemma ClaimTurnHandles(cat: Catalogue, g: Shared, t: nat, pc: PC, e: Event)
    requires SharedGenuine(cat, g) && PcGenuine(cat, pc) && HoldsGuard(g, t, pc) && Claiming(pc)
    ensures Handles(cat, g, pc, ClaimTurn(g, t, pc), e)
  {
  }

  lemma StoreTurnHandles(cat: Catalogue, g: Shared, pc: PC, e: Event)
    requires SharedGenuine(cat, g) && PcGenuine(cat, pc) && !Claiming(pc) && !Removing(pc)
    ensures Handles(cat, g, pc, StoreTurn(g, pc), e)
  {
  }

  lemma RemoveTurnHandles(cat: Catalogue, g: Shared, pc: PC, e: Event)
    requires SharedGenuine(cat, g) && PcGenuine(cat, pc) && Removing(pc) && KeepsKeys(cat, pc)
    ensures Handles(cat, g, pc, RemoveTurn(g, pc), e)
  {
  }

  lemma TurnHandles(cat: Catalogue, g: Shared, t: nat, pc: PC, e: Event)
    requires SharedGenuine(cat, g) && PcGenuine(cat, pc) && HoldsGuard(g, t, pc) && KeepsKeys(cat, pc)
    ensures Handles(cat, g, pc, TakeTurn(g, t, pc), e)
  {
    if Claiming(pc) {
      ClaimTurnHandles(cat, g, t, pc, e);
    } else if Removing(pc) {
      RemoveTurnHandles(cat, g, pc, e);
    } else {
      StoreTurnHandles(cat, g, pc, e);
    }
  }

  // ---------------------------------------------------------------- whole runs

  ghost predicate Inv(cat: Catalogue, s: State) {
    AllGenuine(cat, s) && Balanced(s) && NoStrays(s) && GuardsHeld(s)
  }

  ghost predicate KeyInv(cat: Catalogue, s: State) {
    NoDrops(cat, s) && KeysSettled(s)
  }

  lemma GoKeepsInv(cat: Catalogue, s: State, t: nat)
    requires t < |s.threads| && Inv(cat, s)
    ensures Inv(cat, Go(s, t))
  {
    hide TakeTurn, Covers, Stray, HoldsGuard, PcGenuine, SharedGenuine, Balanced;
    var pc := s.threads[t];
    var turn := TakeTurn(s.g, t, pc);
    var s' := Go(s, t);
    assert HoldsGuard(s.g, t, pc) && PcGenuine(cat, pc);
    TurnKeepsGenuine(cat, s.g, t, pc);
    GoKeepsBalance(cat, s, t);
    TurnHoldsGuard(s.g, t, pc);
    forall u | 0 <= u < |s.threads| && u != t ensures HoldsGuard(s'.g, u, s.threads[u]) {
      TurnRespectsGuards(s.g, t, pc, u, s.threads[u]);
    }
    forall k, e | Stray(s'.g, k, e) ensures Covered(s', k, e) {
      TurnMinds(cat, s.g, t, pc, k, e);
      if Covers(turn.pc, k, e) {
        assert s'.threads[t] == turn.pc;
      } else {
        var u :| 0 <= u < |s.threads| && Covers(s.threads[u], k, e);
        assert s'.threads[u] == s.threads[u];
      }
    }
  }

  lemma GoKeepsKeyInv(cat: Catalogue, s: State, t: nat)
    requires t < |s.threads| && Inv(cat, s) && KeyInv(cat, s)
    ensures KeyInv(cat, Go(s, t))
  {
    hide TakeTurn, Settles, Rival, HoldsGuard, PcGenuine, SharedGenuine, Balanced, KeepsKeys;
    var pc := s.threads[t];
    var turn := TakeTurn(s.g, t, pc);
    var s' := Go(s, t);
    assert HoldsGuard(s.g, t, pc) && PcGenuine(cat, pc) && KeepsKeys(cat, pc);
    forall e | Rival(s'.g, e) ensures Unsettled(s', e) {
      TurnHandles(cat, s.g, t, pc, e);
      if Settles(turn.pc, e) {
        assert s'.threads[t] == turn.pc;
      } else {
        var u :| 0 <= u < |s.threads| && Settles(s.threads[u], e);
        assert s'.threads[u] == s.threads[u];
      }
    }
    TurnHandles(cat, s.g, t, pc, cat(seq(32, i => 0)));
  }

  lemma CallKeepsInv(cat: Catalogue, s: State, t: nat, c: Command)
    requires Inv(cat, s) && (c.Insert? ==> Genuine(cat, c.e))
    ensures Inv(cat, Next(s, Call(t, c)))
  {
    hide Stray, ByteSum, OneEventPerId, KeyOf, KeysOf, IsReplaceable;
    var s' := Next(s, Call(t, c));
    if t < |s.threads| && s.threads[t] == Idle {
      SumUpdate(s.threads, Owed, t, Begin(c));
      SumUpdate(s.threads, OwedBytes, t, Begin(c));
      forall k, e | Stray(s'.g, k, e) ensures Covered(s', k, e) {
        var u :| 0 <= u < |s.threads| && Covers(s.threads[u], k, e);
        assert s'.threads[u] == s.threads[u];
      }
    }
  }

  lemma CallKeepsKeyInv(cat: Catalogue, s: State, t: nat, c: Command)
    requires KeyInv(cat, s) && (c.Delete? ==> !IsReplaceable(cat(c.id)))
    ensures KeyInv(cat, Next(s, Call(t, c)))
  {
    hide Rival, IsReplaceable;
    var s' := Next(s, Call(t, c));
    if t < |s.threads| && s.threads[t] == Idle {
      forall e | Rival(s'.g, e) ensures Unsettled(s', e) {
        var u :| 0 <= u < |s.threads| && Settles(s.threads[u], e);
        assert s'.threads[u] == s.threads[u];
      }
    }
  }

  /** No deletion request reaches a replaceable event. */
  ghost predicate SparesReplaceables(cat: Catalogue, schedule: seq<Action>) {
    forall i :: 0 <= i < |schedule| && schedule[i].Call? && schedule[i].c.Delete? ==>
        !IsReplaceable(cat(schedule[i].c.id))
  }

  lemma {:induction false} RunKeepsInv(cat: Catalogue, threads: nat, schedule: seq<Action>)
    requires Authentic(cat, schedule)
    ensures Inv(cat, Run(Start(threads), schedule))
    ensures SparesReplaceables(cat, schedule) ==> KeyInv(cat, Run(Start(threads), schedule))
  {
    if schedule == [] {
      SumOfIdle(Start(threads).threads, Owed);
      SumOfIdle(Start(threads).threads, OwedBytes);
    } else {
      var before, a := schedule[..|schedule| - 1], schedule[|schedule| - 1];
      RunKeepsInv(cat, threads, before);
      hide Inv, KeyInv;
      var s := Run(Start(threads), before);
      match a {
        case Call(t, c) =>
          CallKeepsInv(cat, s, t, c);
          if SparesReplaceables(cat, schedule) { CallKeepsKeyInv(cat, s, t, c); }
        case Step(t) =>
          if t < |s.threads| {
            GoKeepsInv(cat, s, t);
            if SparesReplaceables(cat, schedule) { GoKeepsKeyInv(cat, s, t); }
          }
      }
    }
  }

  /** No orphans: however inserts, evictions and deletions of any events interleave, once all
      threads are idle every index entry of a non-replaceable event refers to a stored event. */
  lemma NoOrphansOnceIdle(cat: Catalogue, threads: nat, schedule: seq<Action>)
    requires Authentic(cat, schedule)
    ensures var s := Run(Start(threads), schedule);
            AllIdle(s) ==> forall k, e :: (k, e) in s.g.entries && !IsReplaceable(e) ==>
                Stored(s.g.byId, e) && k in KeysOf(e)
  {
    RunKeepsInv(cat, threads, schedule);
    var s := Run(Start(threads), schedule);
    if AllIdle(s) {
      forall k, e | (k, e) in s.g.entries && !IsReplaceable(e) ensures Stored(s.g.byId, e) && k in KeysOf(e) {
        assert (k, e).0 in KeysOf((k, e).1);
        assert !Stray(s.g, k, e);
      }
    }
  }

  /** The counters, exactly: they fall short of the stored events by what the early exits of
      replaceable inserts failed to find, and by nothing else. */
  lemma CountersOnceIdle(cat: Catalogue, threads: nat, schedule: seq<Action>)
    requires Authentic(cat, schedule)
    ensures var s := Run(Start(threads), schedule);
            AllIdle(s) ==> s.g.count == |s.g.byId| - s.g.missed && s.g.bytes == ByteSum(s.g.byId) - s.g.missedBytes
  {
    RunKeepsInv(cat, threads, schedule);
    var s := Run(Start(threads), schedule);
    if AllIdle(s) {
      SumOfIdle(s.threads, Owed);
      SumOfIdle(s.threads, OwedBytes);
    }
  }

  predicate NoReplaceables(schedule: seq<Action>) {
    forall i :: 0 <= i < |schedule| && schedule[i].Call? && schedule[i].c.Insert? ==> !IsReplaceable(schedule[i].c.e)
  }

  /** A thread that is not working on a replaceable event. */
  predicate Plain(pc: PC) {
    match pc
    case Consult(e) => !IsReplaceable(e)
    case Put(e) => !IsReplaceable(e)
    case EarlyCheck(e) => !IsReplaceable(e)
    case Claim(_) => false
    case Compare(_, _) => false
    case TakeOver(_, _) => false
    case EarlyUndo(_) => false
    case Take(_, _, cont) => !cont.Resume?
    case UncountBytes(_, _, cont) => !cont.Resume?
    case UncountOne(_, _, cont) => !cont.Resume?
    case DropKey(_, cont) => !cont.Resume?
    case Unindex(_, _, cont) => !cont.Resume?
    case _ => true
  }

  lemma {:induction false} PlainRunMissesNothing(threads: nat, schedule: seq<Action>)
    requires NoReplaceables(schedule)
    ensures var s := Run(Start(threads), schedule);
            s.g.missed == 0 && s.g.missedBytes == 0 && forall t :: 0 <= t < |s.threads| ==> Plain(s.threads[t])
  {
    if schedule != [] {
      var before, a := schedule[..|schedule| - 1], schedule[|schedule| - 1];
      PlainRunMissesNothing(threads, before);
      var s := Run(Start(threads), before);
      if a.Step? && a.t < |s.threads| { PlainTurn(s.g, a.t, s.threads[a.t]); }
    }
  }

  lemma PlainTurn(g: Shared, t: nat, pc: PC)
    requires Plain(pc)
    ensures var turn := TakeTurn(g, t, pc);
            Plain(turn.pc) && turn.g.missed == g.missed && turn.g.missedBytes == g.missedBytes
  {
  }

  /** Without replaceable events the counters are exact. */
  lemma CountersExactWithoutReplaceables(cat: Catalogue, threads: nat, schedule: seq<Action>)
    requires Authentic(cat, schedule) && NoReplaceables(schedule)
    ensures var s := Run(Start(threads), schedule);
            AllIdle(s) ==> s.g.count == |s.g.byId| && s.g.bytes == ByteSum(s.g.byId)
  {
    CountersOnceIdle(cat, threads, schedule);
    PlainRunMissesNothing(threads, schedule);
  }

  /** Uniqueness: however inserts, evictions, and deletions of other than replaceable events
      interleave, once all threads are idle every stored replaceable event is the one its key
      maps to, so no key has two. */
  lemma OneVersionPerKeyOnceIdle(cat: Catalogue, threads: nat, schedule: seq<Action>)
    requires Authentic(cat, schedule) && SparesReplaceables(cat, schedule)
    ensures var s := Run(Start(threads), schedule);
            AllIdle(s) ==>
              && (forall e :: Stored(s.g.byId, e) && IsReplaceable(e) ==> Wins(s.g, e))
              && (forall e, f :: Stored(s.g.byId, e) && Stored(s.g.byId, f) && IsReplaceable(e) && IsReplaceable(f) ==>
                    KeyOf(e) == KeyOf(f) ==> e == f)
  {
    RunKeepsInv(cat, threads, schedule);
    var s := Run(Start(threads), schedule);
    if AllIdle(s) {
      forall e | Stored(s.g.byId, e) && IsReplaceable(e) ensures Wins(s.g, e) {
        assert !Rival(s.g, e);
      }
    }
  }
}
