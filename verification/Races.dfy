/** Races that the concurrent index does not survive, as concrete schedules of the machine in
    `ConcurrentIndex`: each shows that a hypothesis of a theorem there cannot be dropped. */
module Races {
  import opened Events
  import opened IndexKeys
  import opened EventIndexes
  import opened ConcurrentIndex
  import opened Solo
  import StoreSpec

  // ---------------------------------------------------------------- stretches

  /** Two shared states that differ only in the secondary indexes and the byte and event counts. */
  ghost predicate SameStore(g: Shared, h: Shared) {
    && h.byId == g.byId && h.byReplaceable == g.byReplaceable && h.guard == g.guard && h.tombs == g.tombs
    && h.missed == g.missed && h.missedBytes == g.missedBytes
  }

  /** Claiming a key nobody holds, or whose event is gone. */
  lemma ClaimingFreeKeyEnds(g: Shared, t: nat, e: Event)
    requires IsReplaceable(e) && e.id !in g.tombs && KeyOf(e) !in g.guard
    requires forall id :: id in g.byId ==> g.byId[id].id == id
    requires KeyOf(e) in g.byReplaceable ==> g.byReplaceable[KeyOf(e)] !in g.byId
    ensures Goes(g, t, Consult(e), Turn(g.(byReplaceable := g.byReplaceable[KeyOf(e) := e.id]), Put(e)))
  {
    hide TakeTurn, Goes, KeyOf, IsReplaceable;
    ClaimingEnds(g, t, e);
  }

  /** Displacing the stored version of a key. */
  lemma DisplacingEnds(g: Shared, t: nat, e: Event) returns (h: Shared)
    requires IsReplaceable(e) && e.id !in g.tombs && KeyOf(e) !in g.guard && KeyOf(e) in g.byReplaceable
    requires forall id :: id in g.byId ==> g.byId[id].id == id
    requires var oldId := g.byReplaceable[KeyOf(e)]; oldId in g.byId && Before(e, g.byId[oldId])
    ensures Goes(g, t, Consult(e), Turn(h, Put(e)))
    ensures SameStore(g.(byId := g.byId - {g.byReplaceable[KeyOf(e)]},
                         byReplaceable := g.byReplaceable[KeyOf(e) := e.id]), h)
  {
    hide TakeTurn, Goes, KeyOf, KeysOf, IsReplaceable, Before;
    ClaimingEnds(g, t, e);
    h := Claimed(g, e);
  }

  lemma InsertingEnds(g: Shared, t: nat, e: Event) returns (h: Shared)
    requires IsReplaceable(e) && e.id !in g.tombs && e.id !in g.byId && KeyOf(e) !in g.guard
    requires forall id :: id in g.byId ==> g.byId[id].id == id
    requires KeyOf(e) in g.byReplaceable ==> g.byReplaceable[KeyOf(e)] !in g.byId
    ensures Goes(g, t, Consult(e), Turn(h, Idle))
    ensures SameStore(g.(byId := g.byId[e.id := e], byReplaceable := g.byReplaceable[KeyOf(e) := e.id]), h)
    ensures forall k :: k in KeysOf(e) ==> (k, e) in h.entries
  {
    hide TakeTurn, Goes, KeyOf, IsReplaceable, KeysOf;
    var g1 := g.(byReplaceable := g.byReplaceable[KeyOf(e) := e.id]);
    ClaimingFreeKeyEnds(g, t, e);
    StoringEnds(g1, t, e);
    h := Shelved(g1, e);
    Then(g, t, Consult(e), Turn(g1, Put(e)), Turn(h, Idle));
  }

  /** What is left of a deletion request once the event is out of the primary map. */
  lemma DeletingEnds(g: Shared, t: nat, e: Event) returns (h: Shared)
    requires IsReplaceable(e) && KeyOf(e) !in g.guard
    ensures Goes(g, t, UncountBytes(e, true, Entomb(e.id)), Turn(h, Idle))
    ensures SameStore(g.(byReplaceable := g.byReplaceable - {KeyOf(e)}, tombs := StoreSpec.Bury(g.tombs, e.id)), h)
  {
    hide TakeTurn, Goes, KeyOf, KeysOf, IsReplaceable, StoreSpec.Bury;
    var cont := Entomb(e.id);
    var g1 := g.(bytes := g.bytes - |e.raw|);
    var g2 := g1.(count := g1.count - 1);
    var g3 := g2.(byReplaceable := g2.byReplaceable - {KeyOf(e)});
    UnindexingEnds(g3, t, e, KeysOf(e), cont);
    var g4 := g3.(entries := g3.entries - Under(KeysOf(e), e));
    h := g4.(tombs := StoreSpec.Bury(g4.tombs, e.id));
    var end := Turn(h, Idle);
    InterStep(g4, t, e.id);
    Last(g4, t, Inter(e.id));
    Then(g3, t, Unindex(e, KeysOf(e), cont), Turn(g4, Inter(e.id)), end);
    DropKeyStep(g2, t, e, cont);
    First(g2, t, DropKey(e, cont), end);
    UncountSteps(g1, t, e, true, cont);
    First(g1, t, UncountOne(e, true, cont), end);
    UncountSteps(g, t, e, true, cont);
    First(g, t, UncountBytes(e, true, cont), end);
  }

  // ---------------------------------------------------------------- schedules

  /** Some schedule of calls and steps leads from one state to the other. */
  ghost predicate Reaches(s: State, r: State) {
    exists schedule :: Run(s, schedule) == r
  }

  lemma ReachesOn(a: State, b: State, c: State)
    requires Reaches(a, b) && Reaches(b, c)
    ensures Reaches(a, c)
  {
    hide Run;
    var x :| Run(a, x) == b;
    var y :| Run(b, y) == c;
    RunConcat(a, x, y);
  }

  lemma CallReaches(s: State, t: nat, c: Command)
    requires t < |s.threads| && s.threads[t] == Idle
    ensures Reaches(s, State(s.g, s.threads[t := Begin(c)]))
  {
    RunSnoc(s, [], Call(t, c));
    assert Run(s, [Call(t, c)]) == State(s.g, s.threads[t := Begin(c)]);
  }

  lemma SoloReaches(s: State, t: nat, r: Turn)
    requires t < |s.threads| && Goes(s.g, t, s.threads[t], r)
    ensures Reaches(s, State(r.g, s.threads[t := r.pc]))
  {
    hide Turns, Run;
    var n :| Turns(s.g, t, s.threads[t], n) == r;
    StepsAreTurns(s, t, n);
  }

  /** An insert on a free key, called and run to its end by an idle thread. */
  lemma InsertReaches(s: State, t: nat, e: Event) returns (h: Shared)
    requires t < |s.threads| && s.threads[t] == Idle
    requires IsReplaceable(e) && e.id !in s.g.tombs && e.id !in s.g.byId && KeyOf(e) !in s.g.guard
    requires forall id :: id in s.g.byId ==> s.g.byId[id].id == id
    requires KeyOf(e) in s.g.byReplaceable ==> s.g.byReplaceable[KeyOf(e)] !in s.g.byId
    ensures Reaches(s, State(h, s.threads))
    ensures SameStore(s.g.(byId := s.g.byId[e.id := e], byReplaceable := s.g.byReplaceable[KeyOf(e) := e.id]), h)
    ensures forall k :: k in KeysOf(e) ==> (k, e) in h.entries
  {
    hide Goes, Reaches, KeyOf, IsReplaceable, KeysOf;
    h := InsertingEnds(s.g, t, e);
    var called := State(s.g, s.threads[t := Consult(e)]);
    CallReaches(s, t, Insert(e));
    SoloReaches(called, t, Turn(h, Idle));
    assert called.threads[t := Idle] == s.threads;
    ReachesOn(s, called, State(h, s.threads));
  }

  /** A deletion that has taken its event out drops the key even if another version has claimed
      it meanwhile; a later, older version then finds the key free. Two versions of one
      replaceable event end up stored: uniqueness needs replaceable events to be spared by deletions. */
  lemma DeletionBreaksUniqueness(e1: Event, e2: Event, e0: Event) returns (s: State)
    requires IsReplaceable(e1) && IsReplaceable(e2) && IsReplaceable(e0)
    requires KeyOf(e1) == KeyOf(e2) == KeyOf(e0)
    requires e1.id != e2.id && e2.id != e0.id && e1.id != e0.id
    ensures Reaches(Start(2), s) && AllIdle(s)
    ensures Stored(s.g.byId, e2) && Stored(s.g.byId, e0) && e2 != e0
  {
    hide Goes, Reaches, KeyOf, IsReplaceable, StoreSpec.Bury, TakeTurn;
    var key := KeyOf(e1);
    var idle := Start(2).threads;
    assert idle == [Idle, Idle];
    var g1 := InsertReaches(Start(2), 0, e1);
    // thread 1 starts to delete e1 and stops after the primary map
    var s1 := State(g1, idle);
    var s2 := State(g1, [Idle, Take(e1.id, true, Entomb(e1.id))]);
    CallReaches(s1, 1, Delete(e1.id));
    assert idle[1 := Take(e1.id, true, Entomb(e1.id))] == s2.threads;
    var g3 := g1.(byId := g1.byId - {e1.id});
    var half := UncountBytes(e1, true, Entomb(e1.id));
    TakeStep(g1, 1, e1.id, true, Entomb(e1.id));
    Last(g1, 1, Take(e1.id, true, Entomb(e1.id)));
    SoloReaches(s2, 1, Turn(g3, half));
    var s3 := State(g3, [Idle, half]);
    assert s2.threads[1 := half] == s3.threads;
    // thread 0 inserts e2 completely
    var g4 := InsertReaches(s3, 0, e2);
    var s4 := State(g4, s3.threads);
    // thread 1 goes on and drops the key
    var g5 := DeletingEnds(g4, 1, e1);
    SoloReaches(s4, 1, Turn(g5, Idle));
    var s5 := State(g5, idle);
    assert s4.threads[1 := Idle] == idle;
    assert key !in g5.byReplaceable;
    assert g1.tombs == [] && g5.tombs == StoreSpec.Bury([], e1.id);
    BuriedAlone(e1.id);
    // thread 0 inserts e0
    var g6 := InsertReaches(s5, 0, e0);
    s := State(g6, idle);
    ReachesOn(Start(2), s1, s2);
    ReachesOn(Start(2), s2, s3);
    ReachesOn(Start(2), s3, s4);
    ReachesOn(Start(2), s4, s5);
    ReachesOn(Start(2), s5, s);
  }

  lemma BuriedAlone(id: Id)
    ensures StoreSpec.Bury([], id) == [id]
  {
  }

  /** An eviction, called and run to its end by an idle thread. */
  lemma EvictReaches(s: State, t: nat, e: Event) returns (h: Shared)
    requires t < |s.threads| && s.threads[t] == Idle && Stored(s.g.byId, e)
    ensures Reaches(s, State(h, s.threads)) && SameStore(s.g.(byId := s.g.byId - {e.id}), h)
  {
    hide Goes, Reaches, TakeTurn, KeysOf;
    TakingEnds(s.g, t, e.id, false, Finish);
    h := Taken(s.g, e.id, false);
    var end := Turn(h, Idle);
    CallReaches(s, t, Evict(e.id));
    var called := State(s.g, s.threads[t := Take(e.id, false, Finish)]);
    SoloReaches(called, t, end);
    assert called.threads[t := Idle] == s.threads;
    ReachesOn(s, called, State(h, s.threads));
  }

  /** Thread 0 has put `e` into the primary map and stopped before checking that it still wins. */
  lemma Overtaking(e: Event, f: Event) returns (g: Shared)
    requires IsReplaceable(e) && IsReplaceable(f) && KeyOf(e) == KeyOf(f) && e.id != f.id && Before(f, e)
    ensures Reaches(Start(2), State(g, [EarlyCheck(e), Idle]))
    ensures g.byId == map[f.id := f] && g.byReplaceable == map[KeyOf(e) := f.id] && g.guard == map[] && g.tombs == []
    ensures g.missed == 0
  {
    hide Goes, Reaches, KeyOf, IsReplaceable, TakeTurn, Before, KeysOf;
    var g0 := Start(2).g;
    var idle := Start(2).threads;
    assert idle == [Idle, Idle];
    CallReaches(Start(2), 0, Insert(e));
    var s1 := State(g0, [Consult(e), Idle]);
    assert idle[0 := Consult(e)] == s1.threads;
    var g1 := g0.(byReplaceable := g0.byReplaceable[KeyOf(e) := e.id]);
    ClaimingFreeKeyEnds(g0, 0, e);
    PutStep(g1, 0, e);
    Last(g1, 0, Put(e));
    var g2 := g1.(byId := g1.byId[e.id := e]);
    Then(g0, 0, Consult(e), Turn(g1, Put(e)), Turn(g2, EarlyCheck(e)));
    SoloReaches(s1, 0, Turn(g2, EarlyCheck(e)));
    var s2 := State(g2, [EarlyCheck(e), Idle]);
    assert s1.threads[0 := EarlyCheck(e)] == s2.threads;
    // thread 1 inserts f, displacing e
    CallReaches(s2, 1, Insert(f));
    var s3 := State(g2, [EarlyCheck(e), Consult(f)]);
    assert s2.threads[1 := Consult(f)] == s3.threads;
    var g3 := DisplacingEnds(g2, 1, f);
    assert g3.byId == map[];
    StoringEnds(g3, 1, f);
    g := Shelved(g3, f);
    Then(g2, 1, Consult(f), Turn(g3, Put(f)), Turn(g, Idle));
    SoloReaches(s3, 1, Turn(g, Idle));
    assert s3.threads[1 := Idle] == [EarlyCheck(e), Idle];
    ReachesOn(Start(2), s1, s2);
    ReachesOn(Start(2), s2, s3);
    ReachesOn(Start(2), s3, State(g, [EarlyCheck(e), Idle]));
  }

  /** The early exit of an insert that was overtaken takes back an event that is no longer
      there, and leaves the counters one short. */
  lemma OvertakenInsertLeavesCountersShort(e: Event, f: Event) returns (s: State)
    requires IsReplaceable(e) && IsReplaceable(f) && KeyOf(e) == KeyOf(f) && e.id != f.id && Before(f, e)
    ensures Reaches(Start(2), s) && AllIdle(s)
    ensures s.g.missed == 1 && s.g.byId == map[f.id := f]
  {
    hide Goes, Reaches, KeyOf, IsReplaceable, TakeTurn, Before, KeysOf;
    var g := Overtaking(e, f);
    EarlyCheckStep(g, 0, e);
    EarlyUndoStep(g, 0, e);
    var g1 := g.(missed := g.missed + 1, missedBytes := g.missedBytes + |e.raw|);
    Last(g, 0, EarlyUndo(e));
    First(g, 0, EarlyCheck(e), Turn(g1, Idle));
    var s0 := State(g, [EarlyCheck(e), Idle]);
    SoloReaches(s0, 0, Turn(g1, Idle));
    s := State(g1, [Idle, Idle]);
    assert s0.threads[0 := Idle] == s.threads;
    ReachesOn(Start(2), s0, s);
  }

  /** If the winner is then evicted and the loser published again between that check and the
      taking back, the second copy is taken out of the primary map only: its index entries
      stay behind for good. Freedom from orphans does not extend to replaceable events. */
  lemma ReplaceableOrphan(e: Event, f: Event) returns (s: State)
    requires IsReplaceable(e) && IsReplaceable(f) && KeyOf(e) == KeyOf(f) && e.id != f.id && Before(f, e)
    ensures Reaches(Start(2), s) && AllIdle(s)
    ensures !Stored(s.g.byId, e) && (ByKind(e.kind), e) in s.g.entries
  {
    hide Goes, Reaches, KeyOf, IsReplaceable, TakeTurn, Before, KeysOf;
    var g := Overtaking(e, f);
    var s0 := State(g, [EarlyCheck(e), Idle]);
    EarlyCheckStep(g, 0, e);
    Last(g, 0, EarlyCheck(e));
    SoloReaches(s0, 0, Turn(g, EarlyUndo(e)));
    var s1 := State(g, [EarlyUndo(e), Idle]);
    assert s0.threads[0 := EarlyUndo(e)] == s1.threads;
    var g2 := EvictReaches(s1, 1, f);
    var s2 := State(g2, s1.threads);
    assert g2.byId == map[];
    var g3 := InsertReaches(s2, 1, e);
    var s3 := State(g3, s2.threads);
    EarlyUndoStep(g3, 0, e);
    Last(g3, 0, EarlyUndo(e));
    var g4 := g3.(byId := g3.byId - {e.id});
    SoloReaches(s3, 0, Turn(g4, Idle));
    s := State(g4, [Idle, Idle]);
    assert s3.threads[0 := Idle] == s.threads;
    KeysAreBelonging(e, ByKind(e.kind));
    ReachesOn(Start(2), s0, s1);
    ReachesOn(Start(2), s1, s2);
    ReachesOn(Start(2), s2, s3);
    ReachesOn(Start(2), s3, s);
  }

  /** A newer version that holds its key but is not yet in the primary map loses to an older
      one: the comparison finds no stored event and lets the older one take over. */
  lemma NewerCanLose(older: Event, newer: Event) returns (s: State)
    requires IsReplaceable(older) && IsReplaceable(newer) && KeyOf(older) == KeyOf(newer) && older.id != newer.id
    requires Before(newer, older)
    ensures Reaches(Start(2), s) && AllIdle(s)
    ensures s.g.byId == map[older.id := older]
  {
    hide Goes, Reaches, KeyOf, IsReplaceable, TakeTurn, Before, KeysOf;
    var g0 := Start(2).g;
    var idle := Start(2).threads;
    assert idle == [Idle, Idle];
    CallReaches(Start(2), 0, Insert(newer));
    var s1 := State(g0, [Consult(newer), Idle]);
    assert idle[0 := Consult(newer)] == s1.threads;
    var g1 := g0.(byReplaceable := g0.byReplaceable[KeyOf(newer) := newer.id]);
    ClaimingFreeKeyEnds(g0, 0, newer);
    SoloReaches(s1, 0, Turn(g1, Put(newer)));
    var s2 := State(g1, [Put(newer), Idle]);
    assert s1.threads[0 := Put(newer)] == s2.threads;
    var g2 := InsertReaches(s2, 1, older);
    var s3 := State(g2, s2.threads);
    var g3 := g2.(byId := g2.byId[newer.id := newer]);
    PutStep(g2, 0, newer);
    EarlyCheckStep(g3, 0, newer);
    EarlyUndoStep(g3, 0, newer);
    var g4 := g3.(byId := g3.byId - {newer.id});
    Last(g3, 0, EarlyUndo(newer));
    First(g3, 0, EarlyCheck(newer), Turn(g4, Idle));
    First(g2, 0, Put(newer), Turn(g4, Idle));
    SoloReaches(s3, 0, Turn(g4, Idle));
    s := State(g4, idle);
    assert s3.threads[0 := Idle] == idle;
    ReachesOn(Start(2), s1, s2);
    ReachesOn(Start(2), s2, s3);
    ReachesOn(Start(2), s3, s);
  }

  /** A deletion removes its event before it buries the id; published again in between, the event
      ends up both stored and buried. That no buried event is stored is a fact about operations
      one at a time. */
  lemma RepublishBeatsTheTombstone(e: Event) returns (s: State)
    requires IsReplaceable(e)
    ensures Reaches(Start(2), s) && AllIdle(s)
    ensures Stored(s.g.byId, e) && e.id in s.g.tombs
  {
    hide Goes, Reaches, KeyOf, IsReplaceable, StoreSpec.Bury, TakeTurn, KeysOf;
    var idle := Start(2).threads;
    assert idle == [Idle, Idle];
    var g1 := InsertReaches(Start(2), 0, e);
    // thread 1 starts to delete the event and stops after the primary map
    var s1 := State(g1, idle);
    var take, half := Take(e.id, true, Entomb(e.id)), UncountBytes(e, true, Entomb(e.id));
    var s2 := State(g1, [Idle, take]);
    CallReaches(s1, 1, Delete(e.id));
    assert idle[1 := take] == s2.threads;
    var g3 := g1.(byId := g1.byId - {e.id});
    TakeStep(g1, 1, e.id, true, Entomb(e.id));
    Last(g1, 1, take);
    SoloReaches(s2, 1, Turn(g3, half));
    var s3 := State(g3, [Idle, half]);
    assert s2.threads[1 := half] == s3.threads;
    // thread 0 publishes it again, then thread 1 goes on
    var g4 := InsertReaches(s3, 0, e);
    var s4 := State(g4, s3.threads);
    var g5 := DeletingEnds(g4, 1, e);
    SoloReaches(s4, 1, Turn(g5, Idle));
    s := State(g5, idle);
    assert s4.threads[1 := Idle] == idle;
    assert g4.tombs == [] && g5.tombs == StoreSpec.Bury([], e.id);
    BuriedAlone(e.id);
    ReachesOn(Start(2), s1, s2);
    ReachesOn(Start(2), s2, s3);
    ReachesOn(Start(2), s3, s4);
    ReachesOn(Start(2), s4, s);
  }
}
