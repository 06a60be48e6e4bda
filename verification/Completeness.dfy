/** Inserts lose nothing: in every schedule, whatever its interleaving, an event that is not
    replaceable and that nobody evicts or deletes arrives, in every index (src/store/index.rs:249-406). */
module Completeness {
  import opened Events
  import opened IndexKeys
  import opened EventIndexes
  import opened ConcurrentIndex
  import StoreSpec

  /** No eviction and no deletion names this id. */
  ghost predicate Spares(schedule: seq<Action>, id: Id) {
    forall i :: 0 <= i < |schedule| && schedule[i].Call? ==> SparedBy(schedule[i].c, id)
  }

  predicate SparedBy(c: Command, id: Id) {
    c != Evict(id) && c != Delete(id)
  }

  /** The call finds its thread idle, so the insert begins. */
  predicate Begins(s: State, a: Action) {
    a.Call? && a.c.Insert? && a.t < |s.threads| && s.threads[a.t] == Idle
  }

  /** The events whose insert was begun in the schedule. */
  function Called(threads: nat, schedule: seq<Action>): set<Event> {
    if schedule == [] then {}
    else
      var before, a := schedule[..|schedule| - 1], schedule[|schedule| - 1];
      Called(threads, before) + CalledBy(Run(Start(threads), before), a)
  }

  // ---------------------------------------------------------------- the event is left alone

  ghost predicate QuietShared(g: Shared, e: Event) {
    e.id !in g.tombs && forall key :: key in g.byReplaceable ==> g.byReplaceable[key] != e.id
  }

  /** The thread is not on its way to remove or bury the event, and has stored it if it counts it. */
  ghost predicate QuietPc(g: Shared, e: Event, pc: PC) {
    match pc
    case Compare(_, oldId) => oldId != e.id
    case TakeOver(_, oldId) => oldId != e.id
    case EarlyCheck(x) => x == e ==> Stored(g.byId, e)
    case CountBytes(x) => x == e ==> Stored(g.byId, e)
    case CountOne(x) => x == e ==> Stored(g.byId, e)
    case Index(x, _) => x == e ==> Stored(g.byId, e)
    case FinalCheck(x) => x == e ==> Stored(g.byId, e)
    case Take(id, _, cont) => id != e.id && cont != Entomb(e.id)
    case UncountBytes(x, _, cont) => x != e && cont != Entomb(e.id)
    case UncountOne(x, _, cont) => x != e && cont != Entomb(e.id)
    case DropKey(x, cont) => x != e && cont != Entomb(e.id)
    case Unindex(x, _, cont) => x != e && cont != Entomb(e.id)
    case Inter(dead) => dead != e.id
    case _ => true
  }

  /** Nothing here can touch the event, and it is not replaceable. */
  ghost predicate Quiet(cat: Catalogue, g: Shared, e: Event, pc: PC) {
    && SharedGenuine(cat, g) && PcGenuine(cat, pc) && QuietShared(g, e) && QuietPc(g, e, pc)
    && Genuine(cat, e) && !IsReplaceable(e)
  }

  ghost predicate StaysQuiet(g: Shared, turn: Turn, e: Event) {
    && QuietShared(turn.g, e) && QuietPc(turn.g, e, turn.pc)
    && (Stored(g.byId, e) ==> Stored(turn.g.byId, e))
  }

  lemma ClaimTurnIsQuiet(cat: Catalogue, g: Shared, t: nat, pc: PC, e: Event)
    requires Quiet(cat, g, e, pc) && Claiming(pc)
    ensures StaysQuiet(g, ClaimTurn(g, t, pc), e)
  {
    hide KeyOf, IsReplaceable, Before, KeysOf;
  }

  lemma StoreTurnIsQuiet(cat: Catalogue, g: Shared, pc: PC, e: Event)
    requires Quiet(cat, g, e, pc) && !Claiming(pc) && !Removing(pc)
    ensures StaysQuiet(g, StoreTurn(g, pc), e)
  {
    hide KeyOf, IsReplaceable, KeysOf;
  }

  lemma RemoveTurnIsQuiet(cat: Catalogue, g: Shared, pc: PC, e: Event)
    requires Quiet(cat, g, e, pc) && Removing(pc)
    ensures StaysQuiet(g, RemoveTurn(g, pc), e)
  {
    hide KeyOf, IsReplaceable, KeysOf, StoreSpec.Bury;
    if pc.Inter? { BuryAddsOne(g.tombs, pc.dead); }
  }

  lemma BuryAddsOne(q: seq<Id>, id: Id)
    ensures forall x :: x in StoreSpec.Bury(q, id) ==> x in q || x == id
  {
  }

  lemma TurnIsQuiet(cat: Catalogue, g: Shared, t: nat, pc: PC, e: Event)
    requires Quiet(cat, g, e, pc)
    ensures StaysQuiet(g, TakeTurn(g, t, pc), e)
  {
    hide StaysQuiet, Quiet;
    if Claiming(pc) {
      ClaimTurnIsQuiet(cat, g, t, pc, e);
    } else if Removing(pc) {
      RemoveTurnIsQuiet(cat, g, pc, e);
    } else {
      StoreTurnIsQuiet(cat, g, pc, e);
    }
  }

  // ---------------------------------------------------------------- every event lands

  /** The thread still has the event to put into the primary map. */
  predicate Brings(pc: PC, e: Event) {
    pc == Consult(e) || pc == Put(e)
  }

  lemma TurnBrings(g: Shared, t: nat, pc: PC, e: Event)
    requires Brings(pc, e) && !IsReplaceable(e) && e.id !in g.tombs
    ensures var turn := TakeTurn(g, t, pc); Brings(turn.pc, e) || Stored(turn.g.byId, e)
  {
  }

  ghost predicate Landed(s: State, e: Event) {
    Stored(s.g.byId, e) || exists t :: 0 <= t < |s.threads| && Brings(s.threads[t], e)
  }

  // ---------------------------------------------------------------- and is filed everywhere

  /** The thread has this entry still to make. */
  predicate Files(pc: PC, k: BucketKey, e: Event) {
    match pc
    case EarlyCheck(x) => x == e
    case CountBytes(x) => x == e
    case CountOne(x) => x == e
    case Index(x, todo) => x == e && k in todo
    case _ => false
  }

  ghost predicate Missing(g: Shared, k: BucketKey, e: Event) {
    Stored(g.byId, e) && k in KeysOf(e) && (k, e) !in g.entries
  }

  ghost predicate AllFiled(s: State, e: Event) {
    forall k :: Missing(s.g, k, e) ==> exists t :: 0 <= t < |s.threads| && Files(s.threads[t], k, e)
  }

  /** The step makes the entry, will make it, or leaves it missing as it found it and was not the one
      to make it. */
  ghost predicate Keeps(g: Shared, pc: PC, turn: Turn, k: BucketKey, e: Event) {
    Missing(turn.g, k, e) ==> Files(turn.pc, k, e) || (Missing(g, k, e) && !Files(pc, k, e))
  }

  lemma StoreTurnFiles(cat: Catalogue, g: Shared, pc: PC, k: BucketKey, e: Event)
    requires Quiet(cat, g, e, pc) && !Claiming(pc) && !Removing(pc)
    ensures Keeps(g, pc, StoreTurn(g, pc), k, e)
  {
    hide KeyOf, IsReplaceable, KeysOf;
    if pc.Index? && pc.todo != [] { assert pc.todo == [pc.todo[0]] + pc.todo[1..]; }
  }

  lemma RemoveTurnFiles(cat: Catalogue, g: Shared, pc: PC, k: BucketKey, e: Event)
    requires Quiet(cat, g, e, pc) && Removing(pc)
    ensures Keeps(g, pc, RemoveTurn(g, pc), k, e)
  {
    hide KeyOf, IsReplaceable, KeysOf, StoreSpec.Bury;
  }

  lemma TurnFiles(cat: Catalogue, g: Shared, t: nat, pc: PC, k: BucketKey, e: Event)
    requires Quiet(cat, g, e, pc)
    ensures Keeps(g, pc, TakeTurn(g, t, pc), k, e)
  {
    hide StoreTurn, RemoveTurn, KeyOf, IsReplaceable, Before, KeysOf;
    if Claiming(pc) {
    } else if Removing(pc) {
      RemoveTurnFiles(cat, g, pc, k, e);
    } else {
      StoreTurnFiles(cat, g, pc, k, e);
    }
  }

  // ---------------------------------------------------------------- nothing else is stored

  ghost predicate ContFrom(called: set<Event>, cont: Cont) {
    cont.Resume? ==> cont.newcomer in called
  }

  /** The event the thread may yet put into the primary map was called for. */
  ghost predicate PcFrom(called: set<Event>, pc: PC) {
    match pc
    case Consult(e) => e in called
    case Claim(e) => e in called
    case Compare(e, _) => e in called
    case TakeOver(e, _) => e in called
    case Put(e) => e in called
    case Take(_, _, cont) => ContFrom(called, cont)
    case UncountBytes(_, _, cont) => ContFrom(called, cont)
    case UncountOne(_, _, cont) => ContFrom(called, cont)
    case DropKey(_, cont) => ContFrom(called, cont)
    case Unindex(_, _, cont) => ContFrom(called, cont)
    case _ => true
  }

  ghost predicate StoredFrom(called: set<Event>, g: Shared) {
    forall id :: id in g.byId ==> g.byId[id] in called
  }

  lemma TurnStoresOnlyCalled(g: Shared, t: nat, pc: PC, called: set<Event>)
    requires StoredFrom(called, g) && PcFrom(called, pc)
    ensures var turn := TakeTurn(g, t, pc); StoredFrom(called, turn.g) && PcFrom(called, turn.pc)
  {
    hide KeyOf, IsReplaceable, Before, KeysOf, StoreSpec.Bury;
  }

  // ---------------------------------------------------------------- whole runs

  /** Nothing is stored, or about to be, that was not called for. */
  ghost predicate OnlyCalled(s: State, called: set<Event>) {
    StoredFrom(called, s.g) && forall t :: 0 <= t < |s.threads| ==> PcFrom(called, s.threads[t])
  }

  ghost predicate Arriving(s: State, e: Event, called: set<Event>) {
    && QuietShared(s.g, e)
    && (forall t :: 0 <= t < |s.threads| ==> QuietPc(s.g, e, s.threads[t]))
    && (e in called ==> Landed(s, e))
    && AllFiled(s, e)
  }

  lemma GoArrives(cat: Catalogue, s: State, t: nat, e: Event, called: set<Event>)
    requires t < |s.threads| && AllGenuine(cat, s) && Genuine(cat, e) && !IsReplaceable(e) && Arriving(s, e, called)
    ensures Arriving(Go(s, t), e, called)
  {
    hide TakeTurn, SharedGenuine, PcGenuine, QuietShared, QuietPc, IsReplaceable, Missing, Files, Brings, Stored;
    var pc := s.threads[t];
    var turn := TakeTurn(s.g, t, pc);
    var s' := Go(s, t);
    assert Quiet(cat, s.g, e, pc);
    TurnIsQuiet(cat, s.g, t, pc, e);
    forall u | 0 <= u < |s'.threads| ensures QuietPc(s'.g, e, s'.threads[u]) {
      if u != t { OthersStayQuiet(s.g, s'.g, e, s.threads[u]); }
    }
    if e in called { GoLands(s, t, e); }
    forall k | Missing(s'.g, k, e) ensures exists u :: 0 <= u < |s'.threads| && Files(s'.threads[u], k, e) {
      TurnFiles(cat, s.g, t, pc, k, e);
      if Files(turn.pc, k, e) {
        assert s'.threads[t] == turn.pc;
      } else {
        var u :| 0 <= u < |s.threads| && Files(s.threads[u], k, e);
        assert s'.threads[u] == s.threads[u];
      }
    }
  }

  lemma OthersStayQuiet(g: Shared, h: Shared, e: Event, pc: PC)
    requires QuietPc(g, e, pc) && (Stored(g.byId, e) ==> Stored(h.byId, e))
    ensures QuietPc(h, e, pc)
  {
  }

  lemma GoLands(s: State, t: nat, e: Event)
    requires t < |s.threads| && Landed(s, e) && !IsReplaceable(e) && QuietShared(s.g, e)
    requires Stored(s.g.byId, e) ==> Stored(Go(s, t).g.byId, e)
    ensures Landed(Go(s, t), e)
  {
    hide TakeTurn, IsReplaceable, Brings;
    if !Stored(s.g.byId, e) {
      var u :| 0 <= u < |s.threads| && Brings(s.threads[u], e);
      if u == t { TurnBrings(s.g, t, s.threads[t], e); }
      assert Go(s, t).threads[u] == if u == t then TakeTurn(s.g, t, s.threads[t]).pc else s.threads[u];
    }
  }

  function CalledBy(s: State, a: Action): set<Event> {
    if Begins(s, a) then {a.c.e} else {}
  }

  lemma CallArrives(s: State, t: nat, c: Command, e: Event, called: set<Event>)
    requires Arriving(s, e, called) && SparedBy(c, e.id)
    ensures Arriving(Next(s, Call(t, c)), e, called + CalledBy(s, Call(t, c)))
  {
    hide QuietShared, Missing, Stored;
    var s' := Next(s, Call(t, c));
    if t < |s.threads| && s.threads[t] == Idle {
      assert s'.threads[t] == Begin(c);
      if e in called && !Stored(s.g.byId, e) {
        var u :| 0 <= u < |s.threads| && Brings(s.threads[u], e);
        assert s'.threads[u] == s.threads[u];
      } else if c == Insert(e) {
        assert Brings(s'.threads[t], e);
      }
      forall k | Missing(s'.g, k, e) ensures exists u :: 0 <= u < |s'.threads| && Files(s'.threads[u], k, e) {
        var u :| 0 <= u < |s.threads| && Files(s.threads[u], k, e);
        assert s'.threads[u] == s.threads[u];
      }
    }
  }

  lemma {:induction false} RunArrives(cat: Catalogue, threads: nat, schedule: seq<Action>, e: Event)
    requires Authentic(cat, schedule) && Spares(schedule, e.id) && Genuine(cat, e) && !IsReplaceable(e)
    ensures Arriving(Run(Start(threads), schedule), e, Called(threads, schedule))
  {
    hide Arriving, Inv, Begins, Go, KeyInv, SparesReplaceables, IsReplaceable, SparedBy;
    if schedule == [] {
      StartArrives(threads, e);
    } else {
      var before, a := schedule[..|schedule| - 1], schedule[|schedule| - 1];
      RunArrives(cat, threads, before, e);
      RunKeepsInv(cat, threads, before);
      var s := Run(Start(threads), before);
      var called := Called(threads, before);
      InvIsGenuine(cat, s);
      match a {
        case Call(t, c) => CallArrives(s, t, c, e, called);
        case Step(t) =>
          StepBeginsNothing(s, t);
          assert called + {} == called;
          if t < |s.threads| { GoArrives(cat, s, t, e, called); }
      }
    }
  }

  lemma StartArrives(threads: nat, e: Event)
    ensures Arriving(Start(threads), e, {})
  {
  }

  lemma InvIsGenuine(cat: Catalogue, s: State)
    requires Inv(cat, s)
    ensures AllGenuine(cat, s)
  {
    hide AllGenuine;
  }

  lemma StepBeginsNothing(s: State, t: nat)
    ensures !Begins(s, Step(t))
  {
  }

  /** In every schedule, only what was called for is stored, and that is genuine. */
  lemma {:induction false} RunStoresOnlyCalled(cat: Catalogue, threads: nat, schedule: seq<Action>)
    requires Authentic(cat, schedule)
    ensures OnlyCalled(Run(Start(threads), schedule), Called(threads, schedule))
    ensures forall e :: e in Called(threads, schedule) ==> Genuine(cat, e)
  {
    hide TakeTurn;
    if schedule != [] {
      var before, a := schedule[..|schedule| - 1], schedule[|schedule| - 1];
      RunStoresOnlyCalled(cat, threads, before);
      var s := Run(Start(threads), before);
      var called := Called(threads, before);
      match a {
        case Call(t, c) => CallStoresOnlyCalled(s, t, c, called);
        case Step(t) => if t < |s.threads| { TurnStoresOnlyCalled(s.g, t, s.threads[t], called); }
      }
    }
  }

  lemma CallStoresOnlyCalled(s: State, t: nat, c: Command, called: set<Event>)
    requires OnlyCalled(s, called)
    ensures OnlyCalled(Next(s, Call(t, c)), called + CalledBy(s, Call(t, c)))
  {
    var s' := Next(s, Call(t, c));
    var more := called + CalledBy(s, Call(t, c));
    forall u | 0 <= u < |s'.threads| ensures PcFrom(more, s'.threads[u]) {
      assert PcFrom(called, s.threads[u]);
    }
  }

  /** Whatever else is inserted, evicted and deleted, and however it interleaves: once all threads are
      idle, an event that is not replaceable and that no eviction or deletion names is stored exactly if
      its insert was begun, and then it is in exactly the indexes it belongs in. */
  lemma InsertsArriveOnceIdle(cat: Catalogue, threads: nat, schedule: seq<Action>, e: Event)
    requires Authentic(cat, schedule) && Spares(schedule, e.id) && !IsReplaceable(e)
    ensures var s := Run(Start(threads), schedule);
            AllIdle(s) ==>
              && (Stored(s.g.byId, e) <==> e in Called(threads, schedule))
              && (Stored(s.g.byId, e) ==> forall k :: (k, e) in s.g.entries <==> k in KeysOf(e))
  {
    hide KeysOf, IsReplaceable, Run, Called;
    RunStoresOnlyCalled(cat, threads, schedule);
    var s := Run(Start(threads), schedule);
    if AllIdle(s) && e in Called(threads, schedule) {
      RunArrives(cat, threads, schedule, e);
      NoOrphansOnceIdle(cat, threads, schedule);
      forall k ensures (k, e) in s.g.entries <==> k in KeysOf(e) {
        assert !Missing(s.g, k, e);
      }
    }
  }
}
