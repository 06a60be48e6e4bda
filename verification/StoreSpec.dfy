/** The event store seen from outside: which event holds each slot, and the queue of
    tombstones left by deletion requests. `EventIndex` is proved to behave as this
    specification says; what the relay promises is proved here about whole runs. */
module StoreSpec {
  import opened Events

  const MAX_TOMBSTONES: nat := 262144

  datatype Outcome = Inserted(replaced: Option<Event>) | Duplicate | Deleted | LostRace

  datatype Store = Store(slots: map<Slot, Event>, tombs: seq<Id>)

  const EMPTY := Store(map[], [])

  ghost function Live(s: Store): set<Event> {
    s.slots.Values
  }

  ghost predicate NoRepeats(q: seq<Id>) {
    forall i, j :: 0 <= i < j < |q| ==> q[i] != q[j]
  }

  /** What every reachable store satisfies: each event sits in its own slot, no stored
      event carries a tombstone, and the tombstone queue is bounded and duplicate-free. */
  ghost predicate Wf(cat: Catalogue, s: Store) {
    && (forall sl :: sl in s.slots ==>
          && SlotOf(s.slots[sl]) == sl
          && Genuine(cat, s.slots[sl])
          && s.slots[sl].id !in s.tombs)
    && NoRepeats(s.tombs)
    && |s.tombs| <= MAX_TOMBSTONES
  }

  // ---------------------------------------------------------------- operations

  predicate Accepts(s: Store, e: Event) {
    && e.id !in s.tombs
    && (SlotOf(e) in s.slots ==> Before(e, s.slots[SlotOf(e)]))
  }

  function Insert(s: Store, e: Event): Store {
    if Accepts(s, e) then s.(slots := s.slots[SlotOf(e) := e]) else s
  }

  function InsertOutcome(s: Store, e: Event): Outcome {
    if e.id in s.tombs then Deleted
    else if !Accepts(s, e) then (if IsReplaceable(e) then LostRace else Duplicate)
    else Inserted(if SlotOf(e) in s.slots then Some(s.slots[SlotOf(e)]) else None)
  }

  function Without(slots: map<Slot, Event>, id: Id): map<Slot, Event> {
    map sl | sl in slots && slots[sl].id != id :: slots[sl]
  }

  /** Eviction and replacement: the event goes, nothing is remembered. */
  function Remove(s: Store, id: Id): Store {
    s.(slots := Without(s.slots, id))
  }

  /** The tombstone queue keeps the latest `MAX_TOMBSTONES` ids. */
  function Bury(q: seq<Id>, id: Id): seq<Id> {
    if id in q then q
    else if |q| < MAX_TOMBSTONES then q + [id]
    else (q + [id])[|q| + 1 - MAX_TOMBSTONES..]
  }

  /** A deletion request: the event goes and its id is remembered. */
  function Delete(s: Store, id: Id): Store {
    Store(Without(s.slots, id), Bury(s.tombs, id))
  }

  datatype Op = OpInsert(e: Event) | OpRemove(id: Id) | OpDelete(id: Id)

  function Apply(s: Store, op: Op): Store {
    match op
    case OpInsert(e) => Insert(s, e)
    case OpRemove(id) => Remove(s, id)
    case OpDelete(id) => Delete(s, id)
  }

  function Run(s: Store, ops: seq<Op>): Store {
    if ops == [] then s else Apply(Run(s, ops[..|ops| - 1]), ops[|ops| - 1])
  }

  ghost predicate AllGenuine(cat: Catalogue, ops: seq<Op>) {
    forall i :: 0 <= i < |ops| && ops[i].OpInsert? ==> Genuine(cat, ops[i].e)
  }

  // ---------------------------------------------------------------- invariant

  lemma BuryKeepsQueue(q: seq<Id>, id: Id)
    requires NoRepeats(q) && |q| <= MAX_TOMBSTONES
    ensures NoRepeats(Bury(q, id)) && |Bury(q, id)| <= MAX_TOMBSTONES
    ensures id in Bury(q, id)
    ensures forall x :: x in Bury(q, id) ==> x in q || x == id
  {
    if id !in q {
      var t := q + [id];
      assert t[|q|] == id;
      assert NoRepeats(t);
      if |q| == MAX_TOMBSTONES {
        assert t[1..][|q| - 1] == id;
        assert NoRepeats(t[1..]);
      }
    }
  }

  lemma ApplyKeepsWf(cat: Catalogue, s: Store, op: Op)
    requires Wf(cat, s)
    requires op.OpInsert? ==> Genuine(cat, op.e)
    ensures Wf(cat, Apply(s, op))
  {
    if op.OpDelete? { BuryKeepsQueue(s.tombs, op.id); }
  }

  /** Every run of inserts, evictions and deletions keeps the invariant. */
  lemma {:induction false} RunKeepsWf(cat: Catalogue, s: Store, ops: seq<Op>)
    requires Wf(cat, s) && AllGenuine(cat, ops)
    ensures Wf(cat, Run(s, ops))
  {
    if ops != [] {
      RunKeepsWf(cat, s, ops[..|ops| - 1]);
      ApplyKeepsWf(cat, Run(s, ops[..|ops| - 1]), ops[|ops| - 1]);
    }
  }

  // ---------------------------------------------------------------- order independence

  function Inserts(es: seq<Event>): seq<Op> {
    seq(|es|, i requires 0 <= i < |es| => OpInsert(es[i]))
  }

  /** No other event of `es` competing for the same slot ranks before `e`. */
  ghost predicate Wins(es: seq<Event>, e: Event) {
    && e in es
    && forall x :: x in es && SlotOf(x) == SlotOf(e) ==> x == e || Before(e, x)
  }

  lemma RivalsAreOrdered(cat: Catalogue, a: Event, b: Event)
    requires Genuine(cat, a) && Genuine(cat, b)
    ensures a == b || (Before(a, b) && !Before(b, a)) || (Before(b, a) && !Before(a, b))
  {
    BeforeTotal(a, b);
    BeforeTotal(b, a);
  }

  lemma {:induction false} InsertsKeepTheWinners(cat: Catalogue, es: seq<Event>)
    requires forall e :: e in es ==> Genuine(cat, e)
    ensures Wf(cat, Run(EMPTY, Inserts(es))) && Run(EMPTY, Inserts(es)).tombs == []
    ensures forall e :: e in Live(Run(EMPTY, Inserts(es))) <==> Wins(es, e)
  {
    if es != [] {
      var n := |es| - 1;
      var fs, e := es[..n], es[n];
      assert es == fs + [e];
      assert Inserts(es)[..n] == Inserts(fs);
      InsertsKeepTheWinners(cat, fs);
      var s := Run(EMPTY, Inserts(fs));
      ApplyKeepsWf(cat, s, OpInsert(e));
      var s' := Run(EMPTY, Inserts(es));
      assert s' == Insert(s, e);
      OtherSlotWinners(cat, fs, e, s);
      SameSlotWinner(cat, fs, e, s);
    }
  }

  /** The slots the newest arrival does not compete for, for `InsertsKeepTheWinners`. */
  lemma OtherSlotWinners(cat: Catalogue, fs: seq<Event>, e: Event, s: Store)
    requires Wf(cat, s)
    requires forall x :: x in Live(s) <==> Wins(fs, x)
    ensures forall x :: SlotOf(x) != SlotOf(e) ==> (x in Live(Insert(s, e)) <==> Wins(fs + [e], x))
  {
    forall x | SlotOf(x) != SlotOf(e)
      ensures x in Live(Insert(s, e)) <==> Wins(fs + [e], x)
    {
      OtherSlotLive(cat, s, e, x);
      assert Wins(fs + [e], x) <==> Wins(fs, x);
    }
  }

  lemma OtherSlotLive(cat: Catalogue, s: Store, e: Event, x: Event)
    requires Wf(cat, s) && SlotOf(x) != SlotOf(e)
    ensures x in Live(Insert(s, e)) <==> x in Live(s)
  {
    if x in Live(s) {
      assert SlotOf(x) in s.slots && s.slots[SlotOf(x)] == x;
      assert Insert(s, e).slots[SlotOf(x)] == x;
    }
  }

  /** The slot of the newest arrival, for `InsertsKeepTheWinners`. */
  lemma SameSlotWinner(cat: Catalogue, fs: seq<Event>, e: Event, s: Store)
    requires Wf(cat, s) && s.tombs == []
    requires Genuine(cat, e) && forall x :: x in fs ==> Genuine(cat, x)
    requires forall x :: x in Live(s) <==> Wins(fs, x)
    ensures forall x :: SlotOf(x) == SlotOf(e) ==> (x in Live(Insert(s, e)) <==> Wins(fs + [e], x))
  {
    var es := fs + [e];
    var sl := SlotOf(e);
    var s' := Insert(s, e);
    assert sl in s'.slots && s'.slots[sl] in Live(s');
    var w := s'.slots[sl];
    if sl in s.slots {
      var h := s.slots[sl];
      assert h in Live(s);
      assert Wins(fs, h);
      RivalsAreOrdered(cat, e, h);
      forall x | x in es && SlotOf(x) == sl ensures x == w || Before(w, x) {
        if x in fs && x != h && w == e && e != h { BeforeTransitive(e, h, x); }
      }
    } else {
      forall x | x in fs && SlotOf(x) == sl ensures false { SlotHasAWinner(cat, fs, x, s); }
    }
    assert Wins(es, w);
    forall x | SlotOf(x) == sl
      ensures x in Live(s') <==> x == w
      ensures Wins(es, x) <==> x == w
    {
      if Wins(es, x) && x != w {
        assert Before(x, w) && Before(w, x);
        BeforeTotal(x, w);
      }
    }
  }

  /** Whatever was inserted, someone holds its slot. */
  lemma {:induction false} SlotHasAWinner(cat: Catalogue, fs: seq<Event>, x: Event, s: Store)
    requires forall e :: e in fs ==> Genuine(cat, e)
    requires Wf(cat, s)
    requires forall e :: e in Live(s) <==> Wins(fs, e)
    requires x in fs
    ensures SlotOf(x) in s.slots
  {
    var w := BestOf(cat, fs, x);
    assert w in Live(s);
    var sl :| sl in s.slots && s.slots[sl] == w;
  }

  lemma {:induction false} BestOf(cat: Catalogue, fs: seq<Event>, x: Event) returns (w: Event)
    requires forall e :: e in fs ==> Genuine(cat, e)
    requires x in fs
    ensures SlotOf(w) == SlotOf(x) && Wins(fs, w)
  {
    var n := |fs| - 1;
    var gs, last := fs[..n], fs[n];
    assert fs == gs + [last];
    if exists y :: y in gs && SlotOf(y) == SlotOf(x) {
      var y :| y in gs && SlotOf(y) == SlotOf(x);
      w := BestOf(cat, gs, y);
      if SlotOf(last) == SlotOf(x) {
        RivalsAreOrdered(cat, last, w);
        if Before(last, w) {
          forall z | z in gs && SlotOf(z) == SlotOf(x) && z != w ensures Before(last, z) {
            BeforeTransitive(last, w, z);
          }
          w := last;
        }
      }
    } else {
      w := last;
    }
  }

  /** The order in which a set of events arrives, and repeats among them, do not matter. */
  lemma InsertOrderIsIrrelevant(cat: Catalogue, es: seq<Event>, fs: seq<Event>)
    requires forall e :: e in es ==> Genuine(cat, e)
    requires forall e :: e in es <==> e in fs
    ensures Run(EMPTY, Inserts(es)) == Run(EMPTY, Inserts(fs))
  {
    InsertsKeepTheWinners(cat, es);
    InsertsKeepTheWinners(cat, fs);
    var s, t := Run(EMPTY, Inserts(es)), Run(EMPTY, Inserts(fs));
    forall e ensures e in Live(s) <==> e in Live(t) {
      assert Wins(es, e) <==> Wins(fs, e);
    }
    SameLiveSameSlots(cat, s, t);
    SameLiveSameSlots(cat, t, s);
    assert s.slots == t.slots;
  }

  /** Against NIP-01, every version of a kind-0 or kind-3 event is kept; these are the only kinds
      the store treats differently. */
  lemma KindsZeroAndThreeAreNotReplaced(cat: Catalogue, es: seq<Event>, e: Event)
    requires forall x :: x in es ==> Genuine(cat, x)
    requires e in es && NipReplaceable(e.kind)
    ensures IsReplaceable(e) <==> e.kind != 0 && e.kind != 3
    ensures !IsReplaceable(e) ==> e in Live(Run(EMPTY, Inserts(es)))
  {
    InsertsKeepTheWinners(cat, es);
    if !IsReplaceable(e) {
      forall x | x in es && SlotOf(x) == SlotOf(e) ensures x == e {
        assert x.id == e.id && cat(x.id) == x;
      }
      assert Wins(es, e);
    }
  }

  /** The same without slots and keys: what is stored after any inserts into an empty store is every
      event of a kind that is not replaced, and of each author, kind and d-identifier the latest
      version, the one with the lowest id among the latest. */
  lemma WinnersAre(cat: Catalogue, es: seq<Event>, e: Event)
    requires forall x :: x in es ==> Genuine(cat, x)
    ensures e in Live(Run(EMPTY, Inserts(es))) <==>
            && e in es
            && (10000 <= e.kind < 20000 || 30000 <= e.kind < 40000 ==>
                  forall x :: x in es && SameAddress(e, x) ==>
                    || x == e || x.createdAt < e.createdAt
                    || (x.createdAt == e.createdAt && LexLess(e.id, x.id)))
  {
    InsertsKeepTheWinners(cat, es);
    forall x | x in es ensures SlotOf(x) == SlotOf(e) <==>
                               if 10000 <= e.kind < 20000 || 30000 <= e.kind < 40000 then SameAddress(e, x)
                               else e.id == x.id && !(10000 <= x.kind < 20000 || 30000 <= x.kind < 40000)
    {
      CompeteIff(e, x);
    }
    assert e in es ==> forall x :: x in es && x.id == e.id ==> x == e;
  }

  /** What an insert answers, and what each answer means for the store. */
  lemma OutcomeMeans(cat: Catalogue, s: Store, e: Event)
    requires Wf(cat, s) && Genuine(cat, e)
    ensures var o := InsertOutcome(s, e);
            && (o == Deleted <==> e.id in s.tombs)
            && (o == Duplicate ==> !IsReplaceable(e) && e in Live(s))
            && (o == LostRace ==> IsReplaceable(e))
            && (o == LostRace ==> exists h :: h in Live(s) && SlotOf(h) == SlotOf(e) && (h == e || Before(h, e)))
            && (o.Inserted? <==> e !in Live(s) && e in Live(Insert(s, e)))
            && (o.Inserted? && o.replaced.Some? ==>
                  var d := o.replaced.value;
                  && d in Live(s) && d !in Live(Insert(s, e)) && SlotOf(d) == SlotOf(e) && Before(e, d))
            && (!o.Inserted? ==> Insert(s, e) == s)
            && (o.Inserted? ==> forall x :: x in Live(Insert(s, e)) <==>
                  x == e || (x in Live(s) && o.replaced != Some(x)))
  {
    hide KeyOf, IsReplaceable, Before;
    var sl := SlotOf(e);
    if sl in s.slots {
      var h := s.slots[sl];
      assert h in Live(s);
      RivalsAreOrdered(cat, e, h);
    }
    if Accepts(s, e) {
      assert Insert(s, e).slots[sl] == e;
      BeforeIrreflexive(e);
      forall x ensures x in Live(Insert(s, e)) <==> x == e || (x in Live(s) && SlotOf(x) != sl) {
        if x in Live(s) && SlotOf(x) != sl { assert Insert(s, e).slots[SlotOf(x)] == x; }
      }
      forall x | x in Live(s) && SlotOf(x) == sl ensures x == s.slots[sl] {}
    }
  }

  lemma SameLiveSameSlots(cat: Catalogue, s: Store, t: Store)
    requires Wf(cat, s) && Wf(cat, t)
    requires forall e :: e in Live(s) ==> e in Live(t)
    ensures forall sl :: sl in s.slots ==> sl in t.slots && t.slots[sl] == s.slots[sl]
  {
    forall sl | sl in s.slots ensures sl in t.slots && t.slots[sl] == s.slots[sl] {
      assert s.slots[sl] in Live(t);
      var sl' :| sl' in t.slots && t.slots[sl'] == s.slots[sl];
    }
  }

  // ---------------------------------------------------------------- no resurrection

  /** How many ids not already in the queue a run buries. */
  function FreshBurials(s: Store, ops: seq<Op>): nat {
    if ops == [] then 0
    else
      var before := ops[..|ops| - 1];
      var op := ops[|ops| - 1];
      FreshBurials(s, before) + if op.OpDelete? && op.id !in Run(s, before).tombs then 1 else 0
  }

  lemma {:induction false} BuriedStaysAtItsPlace(cat: Catalogue, s: Store, id: Id, ops: seq<Op>)
    requires Wf(cat, s) && AllGenuine(cat, ops)
    requires s.tombs != [] && s.tombs[|s.tombs| - 1] == id
    requires FreshBurials(s, ops) < MAX_TOMBSTONES
    ensures var q := Run(s, ops).tombs;
            var k := |q| - 1 - FreshBurials(s, ops);
            0 <= k && q[k] == id
  {
    hide Bury;
    if ops != [] {
      var before, op := ops[..|ops| - 1], ops[|ops| - 1];
      BuriedStaysAtItsPlace(cat, s, id, before);
      RunKeepsWf(cat, s, before);
      if op.OpDelete? { BuryShifts(Run(s, before).tombs, |Run(s, before).tombs| - 1 - FreshBurials(s, before), op.id); }
    }
  }

  /** A fresh burial moves every remembered id one place away from the end. */
  lemma BuryShifts(q: seq<Id>, k: nat, id: Id)
    requires k < |q| <= MAX_TOMBSTONES
    requires id !in q ==> |q| - k < MAX_TOMBSTONES
    ensures var q' := Bury(q, id);
            var k' := |q'| - (|q| - k) - (if id in q then 0 else 1);
            0 <= k' < |q'| && q'[k'] == q[k]
  {
  }

  /** From the moment an id is freshly buried until 262144 further fresh burials,
      no run of one operation at a time brings it back: it is not stored, and every insert of it
      answers `Deleted`. */
  lemma NoResurrection(cat: Catalogue, s: Store, id: Id, ops: seq<Op>)
    requires Wf(cat, s) && AllGenuine(cat, ops) && id !in s.tombs
    requires FreshBurials(Delete(s, id), ops) < 262144
    ensures var s' := Run(Delete(s, id), ops);
            && id in s'.tombs
            && (forall e :: e in Live(s') ==> e.id != id)
            && (forall e: Event :: e.id == id ==> InsertOutcome(s', e) == Deleted && Insert(s', e) == s')
  {
    var d := Delete(s, id);
    ApplyKeepsWf(cat, s, OpDelete(id));
    assert d.tombs[|d.tombs| - 1] == id;
    BuriedStaysAtItsPlace(cat, d, id, ops);
    RunKeepsWf(cat, d, ops);
  }

  /** The bound is exact: the fresh burial that makes it 262144 forgets the id. */
  lemma BurialBoundIsExact(cat: Catalogue, s: Store, id: Id, ops: seq<Op>, next: Id)
    requires Wf(cat, s) && AllGenuine(cat, ops) && id !in s.tombs
    requires FreshBurials(Delete(s, id), ops) == 262143
    requires next !in Run(Delete(s, id), ops).tombs
    ensures id !in Delete(Run(Delete(s, id), ops), next).tombs
  {
    var d := Delete(s, id);
    ApplyKeepsWf(cat, s, OpDelete(id));
    assert d.tombs[|d.tombs| - 1] == id;
    BuriedStaysAtItsPlace(cat, d, id, ops);
    RunKeepsWf(cat, d, ops);
    FullQueueForgetsItsHead(Run(d, ops).tombs, next);
  }

  lemma FullQueueForgetsItsHead(q: seq<Id>, next: Id)
    requires NoRepeats(q) && |q| == MAX_TOMBSTONES && next !in q
    ensures q[0] !in Bury(q, next)
  {
    assert Bury(q, next) == q[1..] + [next];
    assert next != q[0];
    assert forall i :: 1 <= i < |q| ==> q[i] != q[0];
  }
}
