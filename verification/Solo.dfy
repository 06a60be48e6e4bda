/** One thread of the concurrent index running with nobody in its way: every operation then does
    what the specification says (src/store/index.rs:249-489, 566-641). */
module Solo {
  import opened Events
  import opened IndexKeys
  import opened EventIndexes
  import opened ConcurrentIndex
  import StoreSpec

  // ---------------------------------------------------------------- one thread running alone

  /** `n` steps of thread `t` in a row, from `pc`. */
  function Turns(g: Shared, t: nat, pc: PC, n: nat): Turn {
    if n == 0 then Turn(g, pc) else var r := Turns(g, t, pc, n - 1); TakeTurn(r.g, t, r.pc)
  }

  lemma {:induction false} TurnsAdd(g: Shared, t: nat, pc: PC, n: nat, m: nat)
    ensures var r := Turns(g, t, pc, n); Turns(g, t, pc, n + m) == Turns(r.g, t, r.pc, m)
  {
    hide TakeTurn;
    if m > 0 {
      TurnsAdd(g, t, pc, n, m - 1);
      assert n + m - 1 == n + (m - 1);
    }
  }

  lemma OneTurn(g: Shared, t: nat, pc: PC)
    ensures Turns(g, t, pc, 1) == TakeTurn(g, t, pc)
  {
    hide TakeTurn;
    assert Turns(g, t, pc, 0) == Turn(g, pc);
  }

  function Steps(t: nat, n: nat): seq<Action> {
    seq(n, i => Step(t))
  }

  lemma RunSnoc(s: State, schedule: seq<Action>, a: Action)
    ensures Run(s, schedule + [a]) == Next(Run(s, schedule), a)
  {
    hide Next;
    assert (schedule + [a])[..|schedule|] == schedule;
  }

  lemma {:induction false} RunConcat(s: State, a: seq<Action>, b: seq<Action>)
    ensures Run(s, a + b) == Run(Run(s, a), b)
  {
    hide Next;
    if b == [] {
      assert a + b == a;
    } else {
      var b0 := b[..|b| - 1];
      assert (a + b)[..|a + b| - 1] == a + b0;
      RunConcat(s, a, b0);
    }
  }

  /** Scheduling one thread `n` times takes its `n` turns. */
  lemma {:induction false} StepsAreTurns(s: State, t: nat, n: nat)
    requires t < |s.threads|
    ensures var r := Turns(s.g, t, s.threads[t], n);
            Run(s, Steps(t, n)) == State(r.g, s.threads[t := r.pc])
  {
    hide TakeTurn;
    if n == 0 {
      assert s.threads[t := s.threads[t]] == s.threads;
    } else {
      StepsAreTurns(s, t, n - 1);
      assert Steps(t, n) == Steps(t, n - 1) + [Step(t)];
      RunSnoc(s, Steps(t, n - 1), Step(t));
    }
  }

  /** Running alone, the thread gets from `pc` to `r`. */
  ghost predicate Goes(g: Shared, t: nat, pc: PC, r: Turn) {
    exists n :: Turns(g, t, pc, n) == r
  }

  lemma Then(g: Shared, t: nat, pc: PC, a: Turn, b: Turn)
    requires Goes(g, t, pc, a) && Goes(a.g, t, a.pc, b)
    ensures Goes(g, t, pc, b)
  {
    hide Turns;
    var n :| Turns(g, t, pc, n) == a;
    var m :| Turns(a.g, t, a.pc, m) == b;
    TurnsAdd(g, t, pc, n, m);
  }

  lemma First(g: Shared, t: nat, pc: PC, b: Turn)
    requires var a := TakeTurn(g, t, pc); Goes(a.g, t, a.pc, b)
    ensures Goes(g, t, pc, b)
  {
    hide TakeTurn;
    OneTurn(g, t, pc);
    Then(g, t, pc, TakeTurn(g, t, pc), b);
  }

  lemma Last(g: Shared, t: nat, pc: PC)
    ensures Goes(g, t, pc, TakeTurn(g, t, pc))
  {
    hide TakeTurn;
    OneTurn(g, t, pc);
  }

  // ---------------------------------------------------------------- single steps

  lemma IndexStep(g: Shared, t: nat, e: Event, todo: seq<BucketKey>)
    ensures TakeTurn(g, t, Index(e, todo)) ==
            if todo == [] then Turn(g, FinalCheck(e))
            else Turn(g.(entries := g.entries + {(todo[0], e)}), Index(e, todo[1..]))
  {
  }

  lemma UnindexStep(g: Shared, t: nat, e: Event, todo: seq<BucketKey>, cont: Cont)
    ensures TakeTurn(g, t, Unindex(e, todo, cont)) ==
            if todo == [] then Return(g, cont)
            else Turn(g.(entries := g.entries - {(todo[0], e)}), Unindex(e, todo[1..], cont))
  {
    hide Return;
  }

  lemma PutStep(g: Shared, t: nat, e: Event)
    ensures TakeTurn(g, t, Put(e)) ==
            Turn(g.(byId := g.byId[e.id := e]), if e.id in g.byId then Idle else EarlyCheck(e))
  {
  }

  lemma EarlyCheckStep(g: Shared, t: nat, e: Event)
    requires IsReplaceable(e) ==> KeyOf(e) !in g.guard
    ensures TakeTurn(g, t, EarlyCheck(e)) ==
            Turn(g, if IsReplaceable(e) && !Wins(g, e) then EarlyUndo(e) else CountBytes(e))
  {
    hide KeyOf, IsReplaceable, Wins;
  }

  lemma CountSteps(g: Shared, t: nat, e: Event)
    ensures TakeTurn(g, t, CountBytes(e)) == Turn(g.(bytes := g.bytes + |e.raw|), CountOne(e))
    ensures TakeTurn(g, t, CountOne(e)) == Turn(g.(count := g.count + 1), Index(e, KeysOf(e)))
  {
    hide KeysOf;
  }

  lemma FinalSteps(g: Shared, t: nat, e: Event)
    requires e.id in g.byId && (IsReplaceable(e) ==> KeyOf(e) !in g.guard && Wins(g, e))
    ensures TakeTurn(g, t, FinalCheck(e)) == Turn(g, if IsReplaceable(e) then FinalWinner(e) else Idle)
    ensures IsReplaceable(e) ==> TakeTurn(g, t, FinalWinner(e)) == Turn(g, Idle)
  {
    hide KeyOf, KeysOf, IsReplaceable, Wins;
  }

  lemma ConsultStep(g: Shared, t: nat, e: Event)
    ensures TakeTurn(g, t, Consult(e)) ==
            Turn(g, if e.id in g.tombs then Idle else if IsReplaceable(e) then Claim(e) else Put(e))
  {
    hide IsReplaceable;
  }

  lemma ClaimStep(g: Shared, t: nat, e: Event)
    requires KeyOf(e) !in g.guard
    ensures TakeTurn(g, t, Claim(e)) ==
            if KeyOf(e) in g.byReplaceable
            then Turn(g.(guard := g.guard[KeyOf(e) := t]), Compare(e, g.byReplaceable[KeyOf(e)]))
            else Turn(g.(byReplaceable := g.byReplaceable[KeyOf(e) := e.id]), Put(e))
  {
    hide KeyOf;
  }

  lemma TakeOverSteps(g: Shared, t: nat, e: Event, oldId: Id)
    ensures TakeTurn(g, t, Compare(e, oldId)) ==
            if oldId in g.byId && !Before(e, g.byId[oldId]) then Turn(g.(guard := g.guard - {KeyOf(e)}), Idle)
            else Turn(g, TakeOver(e, oldId))
    ensures TakeTurn(g, t, TakeOver(e, oldId)) ==
            Turn(g.(byReplaceable := g.byReplaceable[KeyOf(e) := e.id]), Take(oldId, false, Resume(e)))
  {
    hide KeyOf, Before;
  }

  lemma TakeStep(g: Shared, t: nat, id: Id, dropKey: bool, cont: Cont)
    ensures TakeTurn(g, t, Take(id, dropKey, cont)) ==
            if id in g.byId then Turn(g.(byId := g.byId - {id}), UncountBytes(g.byId[id], dropKey, cont))
            else Return(g, cont)
  {
    hide Return;
  }

  lemma UncountSteps(g: Shared, t: nat, e: Event, dropKey: bool, cont: Cont)
    ensures TakeTurn(g, t, UncountBytes(e, dropKey, cont)) ==
            Turn(g.(bytes := g.bytes - |e.raw|), UncountOne(e, dropKey, cont))
    ensures TakeTurn(g, t, UncountOne(e, dropKey, cont)) ==
            Turn(g.(count := g.count - 1),
                 if dropKey && IsReplaceable(e) then DropKey(e, cont) else Unindex(e, KeysOf(e), cont))
  {
    hide KeysOf, IsReplaceable;
  }

  lemma DropKeyStep(g: Shared, t: nat, e: Event, cont: Cont)
    requires KeyOf(e) !in g.guard
    ensures TakeTurn(g, t, DropKey(e, cont)) ==
            Turn(g.(byReplaceable := g.byReplaceable - {KeyOf(e)}), Unindex(e, KeysOf(e), cont))
  {
    hide KeyOf, KeysOf;
  }

  lemma InterStep(g: Shared, t: nat, id: Id)
    ensures TakeTurn(g, t, Inter(id)) == Turn(g.(tombs := StoreSpec.Bury(g.tombs, id)), Idle)
  {
    hide StoreSpec.Bury;
  }

  lemma EarlyUndoStep(g: Shared, t: nat, e: Event)
    ensures TakeTurn(g, t, EarlyUndo(e)) ==
            if e.id in g.byId then Turn(g.(byId := g.byId - {e.id}), Idle)
            else Turn(g.(missed := g.missed + 1, missedBytes := g.missedBytes + |e.raw|), Idle)
  {
  }

  // ---------------------------------------------------------------- stretches

  /** The index entries of an event under these keys. */
  function Under(keys: seq<BucketKey>, e: Event): set<(BucketKey, Event)> {
    set k | k in keys :: (k, e)
  }

  lemma UnderRest(keys: seq<BucketKey>, e: Event)
    requires keys != []
    ensures Under(keys, e) == {(keys[0], e)} + Under(keys[1..], e)
  {
    assert keys == [keys[0]] + keys[1..];
  }

  lemma {:induction false} IndexingEnds(g: Shared, t: nat, e: Event, todo: seq<BucketKey>)
    ensures Goes(g, t, Index(e, todo), Turn(g.(entries := g.entries + Under(todo, e)), FinalCheck(e)))
    decreases |todo|
  {
    hide TakeTurn, Goes;
    IndexStep(g, t, e, todo);
    if todo == [] {
      assert g.entries + Under(todo, e) == g.entries;
      Last(g, t, Index(e, todo));
    } else {
      UnderRest(todo, e);
      var g1 := g.(entries := g.entries + {(todo[0], e)});
      IndexingEnds(g1, t, e, todo[1..]);
      assert g1.entries + Under(todo[1..], e) == g.entries + Under(todo, e);
      First(g, t, Index(e, todo), Turn(g.(entries := g.entries + Under(todo, e)), FinalCheck(e)));
    }
  }

  lemma {:induction false} UnindexingEnds(g: Shared, t: nat, e: Event, todo: seq<BucketKey>, cont: Cont)
    ensures Goes(g, t, Unindex(e, todo, cont), Return(g.(entries := g.entries - Under(todo, e)), cont))
    decreases |todo|
  {
    hide TakeTurn, Goes, Return;
    UnindexStep(g, t, e, todo, cont);
    if todo == [] {
      assert g.entries - Under(todo, e) == g.entries;
      Last(g, t, Unindex(e, todo, cont));
    } else {
      UnderRest(todo, e);
      var g1 := g.(entries := g.entries - {(todo[0], e)});
      UnindexingEnds(g1, t, e, todo[1..], cont);
      assert g1.entries - Under(todo[1..], e) == g.entries - Under(todo, e);
      First(g, t, Unindex(e, todo, cont), Return(g.(entries := g.entries - Under(todo, e)), cont));
    }
  }

  /** The event is in the primary map, counted, and under all its keys. */
  function Shelved(g: Shared, e: Event): Shared {
    g.(byId := g.byId[e.id := e], bytes := g.bytes + |e.raw|, count := g.count + 1,
       entries := g.entries + Under(KeysOf(e), e))
  }

  /** The event is out of the primary map and the counts, and under none of its keys. */
  function Cleared(g: Shared, e: Event): Shared {
    g.(byId := g.byId - {e.id}, bytes := g.bytes - |e.raw|, count := g.count - 1,
       entries := g.entries - Under(KeysOf(e), e))
  }

  /** From the primary map on, an insert that meets nobody completes. */
  lemma StoringEnds(g: Shared, t: nat, e: Event)
    requires e.id !in g.byId && (IsReplaceable(e) ==> Wins(g, e) && KeyOf(e) !in g.guard)
    ensures Goes(g, t, Put(e), Turn(Shelved(g, e), Idle))
  {
    hide TakeTurn, Goes, KeyOf, KeysOf, IsReplaceable;
    var g1 := g.(byId := g.byId[e.id := e]);
    var g2 := g1.(bytes := g1.bytes + |e.raw|);
    var g3 := g2.(count := g2.count + 1);
    IndexingEnds(g3, t, e, KeysOf(e));
    var h := Shelved(g, e);
    assert h == g3.(entries := g3.entries + Under(KeysOf(e), e));
    var end := Turn(h, Idle);
    assert IsReplaceable(e) ==> Wins(h, e) && Wins(g1, e);
    FinalSteps(h, t, e);
    if IsReplaceable(e) {
      Last(h, t, FinalWinner(e));
      First(h, t, FinalCheck(e), end);
    } else {
      Last(h, t, FinalCheck(e));
    }
    Then(g3, t, Index(e, KeysOf(e)), Turn(h, FinalCheck(e)), end);
    CountSteps(g2, t, e);
    First(g2, t, CountOne(e), end);
    CountSteps(g1, t, e);
    First(g1, t, CountBytes(e), end);
    EarlyCheckStep(g1, t, e);
    First(g1, t, EarlyCheck(e), end);
    PutStep(g, t, e);
    First(g, t, Put(e), end);
  }

  /** What `internal_remove` leaves: a stored event is cleared, and its key dropped if asked for. */
  function Taken(g: Shared, id: Id, dropKey: bool): Shared {
    if id !in g.byId then g
    else
      var e := g.byId[id];
      var h := Cleared(g, e);
      if dropKey && IsReplaceable(e) then h.(byReplaceable := g.byReplaceable - {KeyOf(e)}) else h
  }

  lemma TakingEnds(g: Shared, t: nat, id: Id, dropKey: bool, cont: Cont)
    requires id in g.byId ==> g.byId[id].id == id
    requires id in g.byId && dropKey && IsReplaceable(g.byId[id]) ==> KeyOf(g.byId[id]) !in g.guard
    ensures Goes(g, t, Take(id, dropKey, cont), Return(Taken(g, id, dropKey), cont))
  {
    hide TakeTurn, Goes, KeyOf, KeysOf, IsReplaceable, Return;
    TakeStep(g, t, id, dropKey, cont);
    if id !in g.byId {
      Last(g, t, Take(id, dropKey, cont));
    } else {
      var e := g.byId[id];
      var g1 := g.(byId := g.byId - {id});
      var g2 := g1.(bytes := g1.bytes - |e.raw|);
      var g3 := g2.(count := g2.count - 1);
      var drops := dropKey && IsReplaceable(e);
      var g4 := if drops then g3.(byReplaceable := g3.byReplaceable - {KeyOf(e)}) else g3;
      UnindexingEnds(g4, t, e, KeysOf(e), cont);
      var h := Taken(g, id, dropKey);
      assert h == g4.(entries := g4.entries - Under(KeysOf(e), e));
      var end := Return(h, cont);
      if drops {
        DropKeyStep(g3, t, e, cont);
        First(g3, t, DropKey(e, cont), end);
      }
      UncountSteps(g2, t, e, dropKey, cont);
      First(g2, t, UncountOne(e, dropKey, cont), end);
      UncountSteps(g1, t, e, dropKey, cont);
      First(g1, t, UncountBytes(e, dropKey, cont), end);
      First(g, t, Take(id, dropKey, cont), end);
    }
  }

  /** The claim of a replaceable event: the key is taken over and its holder, if stored, removed,
      unless the stored holder ranks first. */
  ghost predicate Refused(g: Shared, e: Event) {
    && KeyOf(e) in g.byReplaceable && g.byReplaceable[KeyOf(e)] in g.byId
    && !Before(e, g.byId[g.byReplaceable[KeyOf(e)]])
  }

  function Claimed(g: Shared, e: Event): Shared {
    var key := KeyOf(e);
    var h := if key in g.byReplaceable then Taken(g, g.byReplaceable[key], false) else g;
    h.(byReplaceable := g.byReplaceable[key := e.id])
  }

  lemma ClaimRefused(g: Shared, t: nat, e: Event)
    requires IsReplaceable(e) && e.id !in g.tombs && KeyOf(e) !in g.guard && Refused(g, e)
    ensures Goes(g, t, Consult(e), Turn(g, Idle))
  {
    hide TakeTurn, Goes, KeyOf, KeysOf, IsReplaceable, Before;
    var key := KeyOf(e);
    var oldId := g.byReplaceable[key];
    var g1 := g.(guard := g.guard[key := t]);
    assert g1.guard - {key} == g.guard;
    TakeOverSteps(g1, t, e, oldId);
    Last(g1, t, Compare(e, oldId));
    ClaimStep(g, t, e);
    First(g, t, Claim(e), Turn(g, Idle));
    ConsultStep(g, t, e);
    First(g, t, Consult(e), Turn(g, Idle));
  }

  lemma ClaimingEnds(g: Shared, t: nat, e: Event)
    requires IsReplaceable(e) && e.id !in g.tombs && KeyOf(e) !in g.guard && !Refused(g, e)
    requires forall id :: id in g.byId ==> g.byId[id].id == id
    ensures Goes(g, t, Consult(e), Turn(Claimed(g, e), Put(e)))
  {
    hide TakeTurn, Goes, KeyOf, KeysOf, IsReplaceable, Before;
    var key := KeyOf(e);
    var end := Turn(Claimed(g, e), Put(e));
    ClaimStep(g, t, e);
    if key in g.byReplaceable {
      var oldId := g.byReplaceable[key];
      var g1 := g.(guard := g.guard[key := t]);
      var g2 := g1.(byReplaceable := g1.byReplaceable[key := e.id]);
      TakingEnds(g2, t, oldId, false, Resume(e));
      ClaimReturns(g, t, e);
      TakeOverSteps(g1, t, e, oldId);
      First(g1, t, TakeOver(e, oldId), end);
      First(g1, t, Compare(e, oldId), end);
      First(g, t, Claim(e), end);
    } else {
      Last(g, t, Claim(e));
    }
    ConsultStep(g, t, e);
    First(g, t, Consult(e), end);
  }

  lemma ClaimReturns(g: Shared, t: nat, e: Event)
    requires KeyOf(e) in g.byReplaceable && KeyOf(e) !in g.guard
    ensures var key := KeyOf(e);
            var g2 := g.(guard := g.guard[key := t], byReplaceable := g.byReplaceable[key := e.id]);
            Return(Taken(g2, g.byReplaceable[key], false), Resume(e)) == Turn(Claimed(g, e), Put(e))
  {
    hide KeyOf, KeysOf;
    assert g.guard[KeyOf(e) := t] - {KeyOf(e)} == g.guard;
  }

  // ---------------------------------------------------------------- refinement

  /** The shared maps stand for this store: the primary map holds its events, the secondary indexes
      exactly their entries, the counters their number and size, and no guard is held. */
  ghost predicate Reflects(cat: Catalogue, g: Shared, view: StoreSpec.Store) {
    && OneEventPerId(cat, g.byId) && Represents(g.byId, view.slots) && KeysPoint(cat, g.byId, g.byReplaceable)
    && (forall k, e :: (k, e) in g.entries <==> Stored(g.byId, e) && k in KeysOf(e))
    && g.count == |g.byId| && g.bytes == ByteSum(g.byId)
    && g.guard == map[] && g.tombs == view.tombs
    && StoreSpec.Wf(cat, view)
  }

  /** Left to run alone from `pc`, the thread becomes idle, and whenever it is, the shared state is `h`. */
  ghost predicate EndsIn(g: Shared, t: nat, pc: PC, h: Shared) {
    && Goes(g, t, pc, Turn(h, Idle))
    && forall n :: Turns(g, t, pc, n).pc == Idle ==> Turns(g, t, pc, n).g == h
  }

  lemma {:induction false} IdleStays(g: Shared, t: nat, n: nat)
    ensures Turns(g, t, Idle, n) == Turn(g, Idle)
  {
    if n > 0 { IdleStays(g, t, n - 1); }
  }

  lemma GoesEnds(g: Shared, t: nat, pc: PC, h: Shared)
    requires Goes(g, t, pc, Turn(h, Idle))
    ensures EndsIn(g, t, pc, h)
  {
    hide Turns;
    var m: nat :| Turns(g, t, pc, m) == Turn(h, Idle);
    forall n: nat | Turns(g, t, pc, n).pc == Idle ensures Turns(g, t, pc, n).g == h {
      var r := Turns(g, t, pc, n);
      if n <= m {
        TurnsAdd(g, t, pc, n, m - n);
        IdleStays(r.g, t, m - n);
      } else {
        TurnsAdd(g, t, pc, m, n - m);
        IdleStays(h, t, n - m);
      }
    }
  }

  /** The part of `Reflects` that says the indexes and counters agree with the primary map. */
  ghost predicate Exact(cat: Catalogue, g: Shared) {
    && OneEventPerId(cat, g.byId)
    && (forall k, e :: (k, e) in g.entries <==> Stored(g.byId, e) && k in KeysOf(e))
    && g.count == |g.byId| && g.bytes == ByteSum(g.byId)
  }

  lemma ShelvedIsExact(cat: Catalogue, g: Shared, e: Event)
    requires Exact(cat, g) && Genuine(cat, e) && e.id !in g.byId
    ensures Exact(cat, Shelved(g, e))
  {
    hide KeysOf, ByteSum;
    PutIn(cat, g.byId, e);
    var h := Shelved(g, e);
    forall k, x ensures (k, x) in h.entries <==> Stored(h.byId, x) && k in KeysOf(x) {
      if Stored(g.byId, x) { assert x.id in g.byId; }
    }
  }

  lemma ClearedIsExact(cat: Catalogue, g: Shared, e: Event)
    requires Exact(cat, g) && Stored(g.byId, e)
    ensures Exact(cat, Cleared(g, e))
  {
    hide KeysOf, ByteSum;
    TakenOut(cat, g.byId, e.id);
    var h := Cleared(g, e);
    forall k, x ensures (k, x) in h.entries <==> Stored(h.byId, x) && k in KeysOf(x) {
      if (k, x) in g.entries && x.id == e.id { assert x == e; }
    }
  }

  lemma TakenIsExact(cat: Catalogue, g: Shared, id: Id, dropKey: bool)
    requires Exact(cat, g)
    ensures var h := Taken(g, id, dropKey);
            Exact(cat, h) && h.byId == g.byId - {id} && h.guard == g.guard && h.tombs == g.tombs
  {
    hide KeysOf, ByteSum, KeyOf, IsReplaceable;
    if id in g.byId {
      ClearedIsExact(cat, g, g.byId[id]);
      assert Exact(cat, Taken(g, id, dropKey));
    } else {
      assert g.byId - {id} == g.byId;
    }
  }

  /** An eviction, alone: the event leaves everything but its replacement key. */
  lemma EvictAlone(cat: Catalogue, g: Shared, t: nat, id: Id, view: StoreSpec.Store) returns (h: Shared)
    requires Reflects(cat, g, view)
    ensures EndsIn(g, t, Begin(Evict(id)), h) && Reflects(cat, h, StoreSpec.Remove(view, id))
    ensures h.byReplaceable == g.byReplaceable
  {
    hide KeysOf, ByteSum, KeyOf, IsReplaceable, Goes, EndsIn, StoreSpec.Wf, Represents, KeysPoint, StoreSpec.Without;
    h := Taken(g, id, false);
    TakingEnds(g, t, id, false, Finish);
    GoesEnds(g, t, Take(id, false, Finish), h);
    TakenIsExact(cat, g, id, false);
    RepresentsWithout(cat, g.byId, view.slots, id);
    KeysPointWithout(cat, g.byId, g.byReplaceable, id);
    StoreSpec.ApplyKeepsWf(cat, view, StoreSpec.OpRemove(id));
  }

  /** A deletion, alone: the event leaves everything, its key included, and its id is buried. */
  lemma DeleteAlone(cat: Catalogue, g: Shared, t: nat, id: Id, view: StoreSpec.Store) returns (h: Shared)
    requires Reflects(cat, g, view)
    ensures EndsIn(g, t, Begin(Delete(id)), h) && Reflects(cat, h, StoreSpec.Delete(view, id))
    ensures h.byReplaceable == if id in g.byId && IsReplaceable(g.byId[id]) then g.byReplaceable - {KeyOf(g.byId[id])}
                               else g.byReplaceable
  {
    hide KeysOf, ByteSum, KeyOf, IsReplaceable, Goes, EndsIn, StoreSpec.Wf, Represents, KeysPoint, StoreSpec.Without,
      StoreSpec.Bury;
    var g1 := Taken(g, id, true);
    h := g1.(tombs := StoreSpec.Bury(g1.tombs, id));
    TakingEnds(g, t, id, true, Entomb(id));
    InterStep(g1, t, id);
    Last(g1, t, Inter(id));
    Then(g, t, Take(id, true, Entomb(id)), Turn(g1, Inter(id)), Turn(h, Idle));
    GoesEnds(g, t, Take(id, true, Entomb(id)), h);
    TakenIsExact(cat, g, id, true);
    RepresentsWithout(cat, g.byId, view.slots, id);
    KeysPointWithout(cat, g.byId, g.byReplaceable, id);
    StoreSpec.ApplyKeepsWf(cat, view, StoreSpec.OpDelete(id));
  }

  /** Who stands in the way of a replaceable event is whoever holds its slot. */
  lemma RefusedIsNotAccepted(cat: Catalogue, g: Shared, e: Event, view: StoreSpec.Store)
    requires Reflects(cat, g, view) && Genuine(cat, e) && IsReplaceable(e) && e.id !in g.tombs
    ensures Refused(g, e) <==> !StoreSpec.Accepts(view, e)
    ensures !Refused(g, e) ==>
              var h := Claimed(g, e);
              && Exact(cat, h) && h.byId == Vacated(g.byId, Holder(view, e))
              && h.byReplaceable == g.byReplaceable[KeyOf(e) := e.id] && h.guard == g.guard && h.tombs == g.tombs
              && e.id !in h.byId
  {
    hide KeysOf, ByteSum, KeyOf, IsReplaceable, StoreSpec.Wf, Before;
    HolderOfKey(cat, g.byId, view.slots, g.byReplaceable, e);
    if !Refused(g, e) {
      var key := KeyOf(e);
      if key in g.byReplaceable { TakenIsExact(cat, g, g.byReplaceable[key], false); }
      assert Exact(cat, Claimed(g, e));
      if e.id in g.byId {
        assert g.byId[e.id] == e && view.slots[SlotOf(e)] == e;
        BeforeIrreflexive(e);
      }
    }
  }

  /** An insert, alone, of any event: buried, refused, already stored, or stored under all its keys,
      exactly as the specification says. */
  lemma InsertAlone(cat: Catalogue, g: Shared, t: nat, e: Event, view: StoreSpec.Store) returns (h: Shared)
    requires Reflects(cat, g, view) && Genuine(cat, e)
    ensures EndsIn(g, t, Begin(Insert(e)), h) && Reflects(cat, h, StoreSpec.Insert(view, e))
    ensures h.byReplaceable == if IsReplaceable(e) && StoreSpec.Accepts(view, e) then g.byReplaceable[KeyOf(e) := e.id]
                               else g.byReplaceable
  {
    hide KeysOf, ByteSum, KeyOf, IsReplaceable, Goes, EndsIn, StoreSpec.Wf, Represents, KeysPoint, Before, TakeTurn,
      Claimed, Shelved;
    ConsultStep(g, t, e);
    if e.id in g.tombs {
      h := g;
      Last(g, t, Consult(e));
    } else if IsReplaceable(e) {
      RefusedIsNotAccepted(cat, g, e, view);
      if Refused(g, e) {
        h := g;
        ClaimRefused(g, t, e);
      } else {
        var g1 := Claimed(g, e);
        ClaimingEnds(g, t, e);
        StoringEnds(g1, t, e);
        h := Shelved(g1, e);
        Then(g, t, Consult(e), Turn(g1, Put(e)), Turn(h, Idle));
        FreshIsReflected(cat, g, g1, e, view);
        ShelvingLeavesKeys(g1, e);
      }
    } else if e.id in g.byId {
      h := g;
      PutStep(g, t, e);
      DuplicateChangesNothing(cat, g.byId, view, None, e);
      Last(g, t, Put(e));
      First(g, t, Consult(e), Turn(g, Idle));
    } else {
      h := Shelved(g, e);
      StoringEnds(g, t, e);
      First(g, t, Consult(e), Turn(h, Idle));
      FreshIsReflected(cat, g, g, e, view);
      ShelvingLeavesKeys(g, e);
    }
    GoesEnds(g, t, Consult(e), h);
  }

  lemma ShelvingLeavesKeys(g: Shared, e: Event)
    ensures Shelved(g, e).byReplaceable == g.byReplaceable
  {
  }

  /** Storing what the specification accepts, once a displaced version is out. */
  lemma FreshIsReflected(cat: Catalogue, g: Shared, g1: Shared, e: Event, view: StoreSpec.Store)
    requires Reflects(cat, g, view) && Genuine(cat, e) && e.id !in view.tombs
    requires Exact(cat, g1) && e.id !in g1.byId && g1.guard == g.guard && g1.tombs == g.tombs
    requires g1.byId == Vacated(g.byId, if IsReplaceable(e) then Holder(view, e) else None)
    requires g1.byReplaceable == if IsReplaceable(e) then g.byReplaceable[KeyOf(e) := e.id] else g.byReplaceable
    requires IsReplaceable(e) ==> StoreSpec.Accepts(view, e)
    ensures Reflects(cat, Shelved(g1, e), StoreSpec.Insert(view, e))
  {
    hide KeysOf, ByteSum, KeyOf, IsReplaceable, StoreSpec.Wf, Before, Represents, KeysPoint;
    ShelvedIsExact(cat, g1, e);
    FreshChangesItsSlot(cat, g.byId, view, g.byReplaceable, e);
    StoreSpec.ApplyKeepsWf(cat, view, StoreSpec.OpInsert(e));
  }

  // ---------------------------------------------------------------- whole runs

  function OpOf(c: Command): StoreSpec.Op {
    match c
    case Insert(e) => StoreSpec.OpInsert(e)
    case Evict(id) => StoreSpec.OpRemove(id)
    case Delete(id) => StoreSpec.OpDelete(id)
  }

  /** Running alone refines the specification: whatever is called on a state that stands for a store,
      the thread ends in one that stands for the store after the operation. */
  lemma AloneRefines(cat: Catalogue, g: Shared, t: nat, c: Command, view: StoreSpec.Store) returns (h: Shared)
    requires Reflects(cat, g, view) && (c.Insert? ==> Genuine(cat, c.e))
    ensures EndsIn(g, t, Begin(c), h) && Reflects(cat, h, StoreSpec.Apply(view, OpOf(c)))
  {
    hide Reflects, EndsIn, Begin;
    match c {
      case Insert(e) => h := InsertAlone(cat, g, t, e, view);
      case Evict(id) => h := EvictAlone(cat, g, t, id, view);
      case Delete(id) => h := DeleteAlone(cat, g, t, id, view);
    }
  }

  datatype Job = Job(t: nat, c: Command)

  function OpsOf(jobs: seq<Job>): seq<StoreSpec.Op> {
    seq(|jobs|, i requires 0 <= i < |jobs| => OpOf(jobs[i].c))
  }

  /** Each job called and run for so many steps, one after the other. */
  function InTurn(jobs: seq<Job>, steps: seq<nat>): seq<Action>
    requires |steps| == |jobs|
  {
    if jobs == [] then []
    else
      var n := |jobs| - 1;
      InTurn(jobs[..n], steps[..n]) + [Call(jobs[n].t, jobs[n].c)] + Steps(jobs[n].t, steps[n])
  }

  lemma OneJob(s: State, t: nat, c: Command, h: Shared) returns (n: nat)
    requires t < |s.threads| && s.threads[t] == Idle && EndsIn(s.g, t, Begin(c), h)
    ensures Run(s, [Call(t, c)] + Steps(t, n)) == State(h, s.threads)
  {
    hide Turns, Run, Begin;
    n :| Turns(s.g, t, Begin(c), n) == Turn(h, Idle);
    var called := State(s.g, s.threads[t := Begin(c)]);
    assert Run(s, [Call(t, c)]) == called by {
      RunNone(s);
      RunSnoc(s, [], Call(t, c));
      assert [] + [Call(t, c)] == [Call(t, c)];
    }
    RunConcat(s, [Call(t, c)], Steps(t, n));
    StepsAreTurns(called, t, n);
    assert called.threads[t := Idle] == s.threads;
  }

  lemma RunNone(s: State)
    ensures Run(s, []) == s
  {
  }

  /** Operations of any threads, one after the other, do to the concurrent index what the
      specification's run does. */
  lemma {:induction false} SerialRefines(cat: Catalogue, threads: nat, jobs: seq<Job>) returns (steps: seq<nat>)
    requires forall i :: 0 <= i < |jobs| ==> jobs[i].t < threads && (jobs[i].c.Insert? ==> Genuine(cat, jobs[i].c.e))
    ensures |steps| == |jobs|
    ensures var s := Run(Start(threads), InTurn(jobs, steps));
            AllIdle(s) && |s.threads| == threads && Reflects(cat, s.g, StoreSpec.Run(StoreSpec.EMPTY, OpsOf(jobs)))
  {
    if jobs == [] {
      steps := [];
    } else {
      var n := |jobs| - 1;
      var before := SerialRefines(cat, threads, jobs[..n]);
      hide Reflects, Run, EndsIn, StoreSpec.Run, StoreSpec.Apply;
      var s := Run(Start(threads), InTurn(jobs[..n], before));
      var view := StoreSpec.Run(StoreSpec.EMPTY, OpsOf(jobs[..n]));
      var h := AloneRefines(cat, s.g, jobs[n].t, jobs[n].c, view);
      var m := OneJob(s, jobs[n].t, jobs[n].c, h);
      steps := before + [m];
      assert steps[..n] == before;
      var last := [Call(jobs[n].t, jobs[n].c)] + Steps(jobs[n].t, m);
      assert InTurn(jobs, steps) == InTurn(jobs[..n], before) + last;
      RunConcat(Start(threads), InTurn(jobs[..n], before), last);
      SpecOneMore(jobs);
    }
  }

  lemma SpecOneMore(jobs: seq<Job>)
    requires jobs != []
    ensures var n := |jobs| - 1;
            StoreSpec.Run(StoreSpec.EMPTY, OpsOf(jobs)) ==
            StoreSpec.Apply(StoreSpec.Run(StoreSpec.EMPTY, OpsOf(jobs[..n])), OpOf(jobs[n].c))
  {
    hide StoreSpec.Apply;
    assert OpsOf(jobs)[..|jobs| - 1] == OpsOf(jobs[..|jobs| - 1]);
  }
}
