/** Live event fanout through a kind index (src/fanout.rs). */
module Fanouts {
  import opened Events
  import opened Filters
  import DropWindow

  type ConnId = nat

  datatype Sub = Sub(id: string, filters: seq<Filter>)

  datatype KindKey = NoKinds | AnyKind | SomeKinds(kinds: set<nat>)

  /** A queued `["EVENT", sub, event]` message. */
  datatype Message = Message(sub: string, event: Event)

  /** Per-connection state. The send queue is a bounded buffer; sending fails when it is full
      or its receiver is gone. `joined` and `dropTimes` record when the connection was
      registered and when each drop happened. */
  datatype Conn = Conn(
    queue: seq<Message>, capacity: nat, closed: bool,
    subs: seq<Sub>, key: KindKey, overflow: seq<string>,
    kill: bool, sent: nat, dropped: nat, window: DropWindow.Window,
    joined: nat, dropTimes: seq<nat>)

  /** A connection as it is registered: nothing queued, subscribed, sent or dropped. */
  function Newcomer(capacity: nat, now: nat): Conn {
    Conn([], capacity, false, [], NoKinds, [], false, 0, 0, DropWindow.Window(now, 0), now, [])
  }

  // ---------------------------------------------------------------- matching

  predicate Wants(s: Sub, e: Event) {
    exists f :: f in s.filters && Matches(f, e)
  }

  predicate Constrains(f: Filter) {
    f.kinds.Some? && f.kinds.value != []
  }

  ghost predicate AllConstrain(subs: seq<Sub>) {
    forall s, f :: s in subs && f in s.filters ==> Constrains(f)
  }

  /** Some filter of some subscription names this kind. */
  ghost predicate Names(subs: seq<Sub>, kind: nat) {
    exists s, f :: s in subs && f in s.filters && f.kinds.Some? && kind in f.kinds.value
  }

  /** What a connection must be indexed under. */
  ghost predicate IsKeyOf(key: KindKey, subs: seq<Sub>) {
    if subs == [] then key == NoKinds
    else if AllConstrain(subs) then key.SomeKinds? && forall k :: k in key.kinds <==> Names(subs, k)
    else key == AnyKind
  }

  predicate Routes(key: KindKey, kind: nat) {
    key.AnyKind? || (key.SomeKinds? && kind in key.kinds)
  }

  /** The key never hides a subscription that wants the event. */
  lemma KeyCoversWants(key: KindKey, subs: seq<Sub>, s: Sub, e: Event)
    requires IsKeyOf(key, subs) && s in subs && Wants(s, e)
    ensures Routes(key, e.kind)
  {
    var f :| f in s.filters && Matches(f, e);
    if AllConstrain(subs) {
      assert Constrains(f) && KindMatches(f, e);
      assert Names(subs, e.kind);
    }
  }

  lemma UnroutedWantsNothing(key: KindKey, subs: seq<Sub>, e: Event)
    requires IsKeyOf(key, subs) && !Routes(key, e.kind)
    ensures Wanted(subs, e) == []
  {
    forall s | s in subs ensures !Wants(s, e) {
      if Wants(s, e) { KeyCoversWants(key, subs, s, e); }
    }
    WantedAre(subs, e);
    if Wanted(subs, e) != [] { assert Wanted(subs, e)[0] in Wanted(subs, e); }
  }

  // ---------------------------------------------------------------- delivery

  function RecordDrop(c: Conn, sub: string, now: nat): Conn {
    c.(dropped := c.dropped + 1,
       overflow := if sub in c.overflow then c.overflow else c.overflow + [sub],
       window := DropWindow.Drop(c.window, now),
       kill := c.kill || DropWindow.OverLimit(c.window, now),
       dropTimes := c.dropTimes + [now])
  }

  /** When the connection's n-th drop happens. */
  type Clock = nat -> nat

  function Offer(c: Conn, sub: string, e: Event, clock: Clock): Conn {
    if !c.closed && |c.queue| < c.capacity then c.(queue := c.queue + [Message(sub, e)], sent := c.sent + 1)
    else RecordDrop(c, sub, clock(c.dropped))
  }

  function OfferAll(c: Conn, wanted: seq<string>, e: Event, clock: Clock): Conn {
    if wanted == [] then c else Offer(OfferAll(c, wanted[..|wanted| - 1], e, clock), wanted[|wanted| - 1], e, clock)
  }

  /** The subscriptions that want the event, in order. */
  function Wanted(subs: seq<Sub>, e: Event): seq<string> {
    if subs == [] then []
    else
      var n := |subs| - 1;
      if Wants(subs[n], e) then Wanted(subs[..n], e) + [subs[n].id] else Wanted(subs[..n], e)
  }

  ghost predicate DistinctIds(subs: seq<Sub>) {
    forall i, j :: 0 <= i < j < |subs| ==> subs[i].id != subs[j].id
  }

  ghost predicate NoRepeats(names: seq<string>) {
    forall i, j :: 0 <= i < j < |names| ==> names[i] != names[j]
  }

  lemma {:induction false} WantedAre(subs: seq<Sub>, e: Event)
    ensures forall id :: id in Wanted(subs, e) <==> exists s :: s in subs && Wants(s, e) && s.id == id
  {
    if subs != [] {
      var n := |subs| - 1;
      WantedAre(subs[..n], e);
      assert forall s :: s in subs <==> s in subs[..n] || s == subs[n];
    }
  }

  /** `names` are, in order, the ids of the subscriptions at `places`, and those are exactly the ones
      with a filter that matches the event. */
  ghost predicate PicksOut(subs: seq<Sub>, e: Event, names: seq<string>, places: seq<nat>) {
    && |places| == |names|
    && (forall i :: 0 <= i < |places| ==> places[i] < |subs| && names[i] == subs[places[i]].id)
    && (forall i, j :: 0 <= i < j < |places| ==> places[i] < places[j])
    && (forall n :: 0 <= n < |subs| ==> (n in places <==> exists f :: f in subs[n].filters && Matches(f, e)))
  }

  lemma {:induction false} WantedPlaces(subs: seq<Sub>, e: Event) returns (places: seq<nat>)
    ensures |places| == |Wanted(subs, e)|
    ensures forall i :: 0 <= i < |places| ==> places[i] < |subs| && Wanted(subs, e)[i] == subs[places[i]].id
    ensures forall i, j :: 0 <= i < j < |places| ==> places[i] < places[j]
    ensures forall n :: 0 <= n < |subs| ==> (n in places <==> Wants(subs[n], e))
  {
    hide Wants;
    places := [];
    if subs != [] {
      var n := |subs| - 1;
      places := WantedPlaces(subs[..n], e);
      assert forall m :: 0 <= m < n ==> subs[..n][m] == subs[m];
      assert n !in places;
      if Wants(subs[n], e) { places := places + [n]; }
    }
  }

  lemma WantedInOrder(subs: seq<Sub>, e: Event) returns (places: seq<nat>)
    ensures PicksOut(subs, e, Wanted(subs, e), places)
  {
    hide Matches;
    places := WantedPlaces(subs, e);
  }

  lemma {:induction false} WantedOnce(subs: seq<Sub>, e: Event)
    requires DistinctIds(subs)
    ensures NoRepeats(Wanted(subs, e))
  {
    if subs != [] {
      var n := |subs| - 1;
      WantedOnce(subs[..n], e);
      WantedAre(subs[..n], e);
      forall id | id in Wanted(subs[..n], e) ensures id != subs[n].id {
        var s :| s in subs[..n] && Wants(s, e) && s.id == id;
        var i :| 0 <= i < n && subs[i] == s;
      }
      var w := Wanted(subs[..n], e);
      assert forall i :: 0 <= i < |w| ==> w[i] in w;
    }
  }

  /** Delivery changes the queue, the counters and the drop record, and nothing else. */
  ghost predicate SameSubs(c: Conn, d: Conn) {
    d.subs == c.subs && d.key == c.key && d.capacity == c.capacity && d.closed == c.closed && d.joined == c.joined
  }

  lemma {:induction false} OfferAllCounts(c: Conn, wanted: seq<string>, e: Event, clock: Clock)
    ensures var d := OfferAll(c, wanted, e, clock);
            && SameSubs(c, d)
            && d.sent + d.dropped == c.sent + c.dropped + |wanted|
            && (DropsRecorded(c) ==> DropsRecorded(d))
  {
    if wanted != [] {
      OfferAllCounts(c, wanted[..|wanted| - 1], e, clock);
      var d := OfferAll(c, wanted[..|wanted| - 1], e, clock);
      assert (d.dropTimes + [clock(d.dropped)])[..|d.dropTimes|] == d.dropTimes;
    }
  }

  /** How many of `n` messages the queue still takes. */
  function Room(c: Conn, n: nat): nat {
    if c.closed || |c.queue| >= c.capacity then 0
    else if n <= c.capacity - |c.queue| then n
    else c.capacity - |c.queue|
  }

  /** The first wanted subscriptions that fit have their messages queued, in order, behind what was
      queued already; each is counted as sent and each of the others as dropped. */
  ghost predicate Queued(c: Conn, d: Conn, wanted: seq<string>, e: Event) {
    var k := Room(c, |wanted|);
    && d.queue == c.queue + seq(k, i requires 0 <= i < k => Message(wanted[i], e))
    && d.sent == c.sent + k
    && d.dropped == c.dropped + |wanted| - k
  }

  /** The overflow list gains `late`: the dropped subscriptions not yet in it, once each, in the order
      of their first drop; `places` says where among the wanted ones they are. */
  ghost predicate Overflowed(c: Conn, d: Conn, wanted: seq<string>, late: seq<string>, places: seq<nat>) {
    var k := Room(c, |wanted|);
    && d.overflow == c.overflow + late
    && |places| == |late|
    && (forall i :: 0 <= i < |places| ==> k <= places[i] < |wanted| && late[i] == wanted[places[i]])
    && (forall i, j :: 0 <= i < j < |places| ==> places[i] < places[j])
    && (forall n :: k <= n < |wanted| ==> wanted[n] in c.overflow || wanted[n] in late)
    && (forall i :: 0 <= i < |late| ==> late[i] !in c.overflow)
    && NoRepeats(late)
  }

  lemma {:induction false} OfferAllQueues(c: Conn, wanted: seq<string>, e: Event, clock: Clock)
    ensures SameSubs(c, OfferAll(c, wanted, e, clock))
    ensures Queued(c, OfferAll(c, wanted, e, clock), wanted, e)
  {
    if wanted != [] {
      var n := |wanted| - 1;
      OfferAllQueues(c, wanted[..n], e, clock);
      var k, k' := Room(c, n), Room(c, |wanted|);
      var older := seq(k, i requires 0 <= i < k => Message(wanted[..n][i], e));
      var newer := seq(k', i requires 0 <= i < k' => Message(wanted[i], e));
      assert newer == if k' == k then older else older + [Message(wanted[n], e)];
    } else {
      assert Room(c, 0) == 0;
    }
  }

  lemma {:induction false} OfferAllOverflows(c: Conn, wanted: seq<string>, e: Event, clock: Clock)
    returns (late: seq<string>, places: seq<nat>)
    ensures Overflowed(c, OfferAll(c, wanted, e, clock), wanted, late, places)
  {
    late, places := [], [];
    if wanted != [] {
      var n := |wanted| - 1;
      late, places := OfferAllOverflows(c, wanted[..n], e, clock);
      var d := OfferAll(c, wanted[..n], e, clock);
      OfferAllQueues(c, wanted[..n], e, clock);
      var full := d.closed || |d.queue| >= d.capacity;
      LateGrows(c, d, OfferAll(c, wanted, e, clock), wanted, late, places, full);
      if full && wanted[n] !in d.overflow { late, places := late + [wanted[n]], places + [n]; }
    }
  }

  lemma LateGrows(c: Conn, d: Conn, d': Conn, wanted: seq<string>, late: seq<string>, places: seq<nat>, full: bool)
    requires wanted != [] && Overflowed(c, d, wanted[..|wanted| - 1], late, places)
    requires full <==> Room(c, |wanted| - 1) == Room(c, |wanted|)
    requires var name := wanted[|wanted| - 1];
             d'.overflow == if full && name !in d.overflow then d.overflow + [name] else d.overflow
    ensures var name := wanted[|wanted| - 1];
            if full && name !in d.overflow then Overflowed(c, d', wanted, late + [name], places + [|wanted| - 1])
            else Overflowed(c, d', wanted, late, places)
  {
    var n := |wanted| - 1;
    assert forall m :: 0 <= m < n ==> wanted[..n][m] == wanted[m];
    assert forall x :: x in d.overflow <==> x in c.overflow || x in late;
  }

  ghost predicate LateAre(c: Conn, d: Conn, wanted: seq<string>, late: seq<string>) {
    exists places :: Overflowed(c, d, wanted, late, places)
  }

  /** What a publish does to a connection: the subscriptions with a matching filter are served in
      order, as far as the queue has room, and the others are recorded as dropped. */
  ghost predicate Delivered(c: Conn, d: Conn, e: Event) {
    && SameSubs(c, d)
    && exists wanted, places, late ::
         PicksOut(c.subs, e, wanted, places) && Queued(c, d, wanted, e) && LateAre(c, d, wanted, late)
  }

  lemma DeliveryIs(c: Conn, e: Event, clock: Clock)
    ensures Delivered(c, OfferAll(c, Wanted(c.subs, e), e, clock), e)
  {
    hide PicksOut, Queued, Overflowed, OfferAll, Wanted;
    var places := WantedInOrder(c.subs, e);
    OfferAllQueues(c, Wanted(c.subs, e), e, clock);
    var late, lateAt := OfferAllOverflows(c, Wanted(c.subs, e), e, clock);
    assert LateAre(c, OfferAll(c, Wanted(c.subs, e), e, clock), Wanted(c.subs, e), late);
  }

  /** Each drop is recorded with its time, and a message is dropped only if the queue is full or its
      receiver gone. */
  lemma {:induction false} DropTimesAre(c: Conn, wanted: seq<string>, e: Event, clock: Clock)
    requires c.dropped == |c.dropTimes|
    ensures var d := OfferAll(c, wanted, e, clock);
            && c.dropped <= d.dropped == |d.dropTimes| && d.dropTimes[..c.dropped] == c.dropTimes
            && (forall i :: c.dropped <= i < d.dropped ==> d.dropTimes[i] == clock(i))
            && (d.dropped > c.dropped ==> d.closed || |d.queue| >= d.capacity)
  {
    if wanted != [] { DropTimesAre(c, wanted[..|wanted| - 1], e, clock); }
  }

  /** The rate window and the kill flag are what the drops so far make them. */
  ghost predicate DropsRecorded(c: Conn) {
    && c.dropped == |c.dropTimes|
    && c.window == DropWindow.After(c.joined, c.dropTimes)
    && c.kill == DropWindow.Killed(c.joined, c.dropTimes)
  }

  method Deliver(start: Conn, e: Event, clock: Clock) returns (c: Conn, attempts: seq<string>)
    ensures attempts == Wanted(start.subs, e)
    ensures c == OfferAll(start, attempts, e, clock)
  {
    c, attempts := start, [];
    for n := 0 to |start.subs|
      invariant attempts == Wanted(start.subs[..n], e)
      invariant c == OfferAll(start, attempts, e, clock)
    {
      assert start.subs[..n + 1][..n] == start.subs[..n];
      if Wants(start.subs[n], e) {
        assert (attempts + [start.subs[n].id])[..|attempts|] == attempts;
        c := Offer(c, start.subs[n].id, e, clock);
        attempts := attempts + [start.subs[n].id];
      }
    }
    assert start.subs[..|start.subs|] == start.subs;
  }

  // ---------------------------------------------------------------- index key

  /** The nested loops of `reindex`, leaving both at the first unconstrained filter. */
  method ComputeKey(subs: seq<Sub>) returns (key: KindKey)
    ensures IsKeyOf(key, subs)
  {
    if subs == [] {
      return NoKinds;
    }
    var kinds: set<nat> := {};
    for n := 0 to |subs|
      invariant AllConstrain(subs[..n])
      invariant forall k :: k in kinds <==> Names(subs[..n], k)
    {
      var filters := subs[n].filters;
      for m := 0 to |filters|
        invariant forall f :: f in filters[..m] ==> Constrains(f)
        invariant forall k :: k in kinds <==>
                    Names(subs[..n], k) || exists f :: f in filters[..m] && f.kinds.Some? && k in f.kinds.value
      {
        var f := filters[m];
        if !Constrains(f) {
          assert subs[n] in subs && f in subs[n].filters;
          return AnyKind;
        }
        assert filters[..m + 1] == filters[..m] + [f];
        kinds := kinds + set k | k in f.kinds.value;
      }
      assert filters[..|filters|] == filters;
      assert subs[..n + 1] == subs[..n] + [subs[n]];
      forall k ensures k in kinds <==> Names(subs[..n + 1], k) {
        if Names(subs[..n + 1], k) {
          var s, f :| s in subs[..n + 1] && f in s.filters && f.kinds.Some? && k in f.kinds.value;
          assert s in subs[..n] || s == subs[n];
        }
      }
    }
    assert subs[..|subs|] == subs;
    key := SomeKinds(kinds);
  }

  // ---------------------------------------------------------------- kind index

  type ByKind = map<nat, set<ConnId>>

  function Bucket(b: ByKind, k: nat): set<ConnId> {
    if k in b then b[k] else {}
  }

  ghost predicate NoEmptyBuckets(b: ByKind) {
    forall k :: k in b ==> b[k] != {}
  }

  /** `Index::index` for the kinds of one connection. */
  method AddKinds(start: ByKind, id: ConnId, kinds: set<nat>) returns (b: ByKind)
    requires NoEmptyBuckets(start)
    ensures NoEmptyBuckets(b)
    ensures forall k, c :: c in Bucket(b, k) <==> c in Bucket(start, k) || (c == id && k in kinds)
  {
    b := start;
    var todo := kinds;
    while todo != {}
      invariant todo <= kinds
      invariant NoEmptyBuckets(b)
      invariant forall k, c :: c in Bucket(b, k) <==> c in Bucket(start, k) || (c == id && k in kinds && k !in todo)
      decreases |todo|
    {
      var k :| k in todo;
      ghost var b0 := b;
      b := b[k := Bucket(b, k) + {id}];
      assert forall j :: j != k ==> Bucket(b, j) == Bucket(b0, j);
      todo := todo - {k};
    }
  }

  /** `Index::deindex` for the kinds of one connection; emptied entries are removed. */
  method RemoveKinds(start: ByKind, id: ConnId, kinds: set<nat>) returns (b: ByKind)
    requires NoEmptyBuckets(start)
    ensures NoEmptyBuckets(b)
    ensures forall k, c :: c in Bucket(b, k) <==> c in Bucket(start, k) && !(c == id && k in kinds)
  {
    b := start;
    var todo := kinds;
    while todo != {}
      invariant todo <= kinds
      invariant NoEmptyBuckets(b)
      invariant forall k, c :: c in Bucket(b, k) <==> c in Bucket(start, k) && !(c == id && k in kinds && k !in todo)
      decreases |todo|
    {
      var k :| k in todo;
      ghost var b0 := b;
      if k in b {
        var rest := b[k] - {id};
        b := if rest == {} then b - {k} else b[k := rest];
        assert Bucket(b, k) == rest;
      }
      assert forall j :: j != k ==> Bucket(b, j) == Bucket(b0, j);
      todo := todo - {k};
    }
  }

  // ---------------------------------------------------------------- registry

  function Find(subs: seq<Sub>, id: string): (n: nat)
    ensures n <= |subs|
    ensures n < |subs| ==> subs[n].id == id
    ensures forall i :: 0 <= i < n ==> subs[i].id != id
  {
    if subs == [] || subs[0].id == id then 0 else 1 + Find(subs[1..], id)
  }

  function Retain(subs: seq<Sub>, id: string): seq<Sub> {
    if subs == [] then []
    else
      var n := |subs| - 1;
      if subs[n].id == id then Retain(subs[..n], id) else Retain(subs[..n], id) + [subs[n]]
  }

  lemma {:induction false} RetainAre(subs: seq<Sub>, id: string)
    ensures forall s :: s in Retain(subs, id) <==> s in subs && s.id != id
  {
    if subs != [] {
      var n := |subs| - 1;
      RetainAre(subs[..n], id);
      assert forall s :: s in subs <==> s in subs[..n] || s == subs[n];
    }
  }

  lemma {:induction false} RetainCounts(subs: seq<Sub>, id: string)
    ensures |Retain(subs, id)| <= |subs|
    ensures |Retain(subs, id)| == |subs| <==> forall s :: s in subs ==> s.id != id
    ensures |Retain(subs, id)| == |subs| ==> Retain(subs, id) == subs
  {
    if subs != [] {
      var n := |subs| - 1;
      RetainCounts(subs[..n], id);
      assert subs == subs[..n] + [subs[n]];
      assert forall s :: s in subs <==> s in subs[..n] || s == subs[n];
    }
  }

  lemma {:induction false} RetainDistinct(subs: seq<Sub>, id: string)
    requires DistinctIds(subs)
    ensures DistinctIds(Retain(subs, id))
  {
    if subs != [] {
      var n := |subs| - 1;
      RetainDistinct(subs[..n], id);
      RetainAre(subs[..n], id);
      forall s | s in Retain(subs[..n], id) ensures s.id != subs[n].id {
        var i :| 0 <= i < n && subs[i] == s;
      }
    }
  }

  /** Adding or replacing a subscription. */
  function WithSub(subs: seq<Sub>, id: string, filters: seq<Filter>): seq<Sub> {
    var n := Find(subs, id);
    if n < |subs| then subs[n := Sub(id, filters)] else subs + [Sub(id, filters)]
  }

  /** Afterwards the subscription has these filters, and every other one is as it was, in its place. */
  lemma WithSubAre(subs: seq<Sub>, id: string, filters: seq<Filter>)
    requires DistinctIds(subs)
    ensures var after := WithSub(subs, id, filters);
            && (forall s :: s in after <==> s == Sub(id, filters) || (s in subs && s.id != id))
            && |subs| <= |after|
            && (forall i :: 0 <= i < |subs| ==> after[i] == if subs[i].id == id then Sub(id, filters) else subs[i])
  {
    var after, n := WithSub(subs, id, filters), Find(subs, id);
    assert forall i :: 0 <= i < |subs| ==> after[i] == if subs[i].id == id then Sub(id, filters) else subs[i];
    if n < |subs| { assert after[n] == Sub(id, filters); } else { assert after[|subs|] == Sub(id, filters); }
    forall s | s in subs && s.id != id ensures s in after {
      var i :| 0 <= i < |subs| && subs[i] == s;
      assert after[i] == s;
    }
  }

  lemma WithSubDistinct(subs: seq<Sub>, id: string, filters: seq<Filter>)
    requires DistinctIds(subs)
    ensures DistinctIds(WithSub(subs, id, filters))
  {
  }

  /** The index holds each connection exactly under its key. */
  ghost predicate IndexedBy(states: map<ConnId, Conn>, byKind: ByKind, anyKind: set<ConnId>) {
    && NoEmptyBuckets(byKind)
    && (forall id :: id in anyKind <==> id in states && states[id].key == AnyKind)
    && (forall id, k :: id in Bucket(byKind, k) <==>
          id in states && states[id].key.SomeKinds? && k in states[id].key.kinds)
  }

  ghost predicate HealthyConn(c: Conn, registered: bool) {
    && DistinctIds(c.subs)
    && DropsRecorded(c)
    && (registered ==> IsKeyOf(c.key, c.subs))
  }

  /** The key of a registered connection is the one its subscriptions call for. */
  ghost predicate Healthy(states: map<ConnId, Conn>, conns: set<ConnId>) {
    && conns <= states.Keys
    && forall id :: id in states ==> HealthyConn(states[id], id in conns)
  }

  class Fanout {
    /** Every connection object handed out, registered or not. */
    var states: map<ConnId, Conn>
    /** The ids in the registry. */
    var conns: set<ConnId>
    var byKind: ByKind
    var anyKind: set<ConnId>
    var nextId: ConnId

    ghost predicate Valid()
      reads this
    {
      && IndexedBy(states, byKind, anyKind)
      && Healthy(states, conns)
      && forall id :: id in states ==> id <= nextId
    }

    constructor ()
      ensures Valid() && states == map[] && conns == {}
    {
      states, conns, byKind, anyKind, nextId := map[], {}, map[], {}, 0;
    }

    method Register(capacity: nat, now: nat) returns (id: ConnId)
      requires Valid()
      modifies this
      ensures Valid()
      ensures id !in old(states) && conns == old(conns) + {id}
      ensures states == old(states)[id := Newcomer(capacity, now)]
      ensures var c := states[id];
              && c.queue == [] && c.capacity == capacity && !c.closed && c.subs == [] && c.overflow == []
              && !c.kill && c.sent == 0 && c.dropped == 0
    {
      nextId := nextId + 1;
      id := nextId;
      states := states[id := Newcomer(capacity, now)];
      conns := conns + {id};
    }

    method Deindex(id: ConnId, key: KindKey)
      requires NoEmptyBuckets(byKind)
      modifies this`byKind, this`anyKind
      ensures NoEmptyBuckets(byKind)
      ensures anyKind == if key.AnyKind? then old(anyKind) - {id} else old(anyKind)
      ensures forall k, c :: c in Bucket(byKind, k) <==>
                c in Bucket(old(byKind), k) && !(c == id && key.SomeKinds? && k in key.kinds)
    {
      match key {
        case NoKinds =>
        case AnyKind => anyKind := anyKind - {id};
        case SomeKinds(kinds) => byKind := RemoveKinds(byKind, id, kinds);
      }
    }

    method Index(id: ConnId, key: KindKey)
      requires NoEmptyBuckets(byKind)
      modifies this`byKind, this`anyKind
      ensures NoEmptyBuckets(byKind)
      ensures anyKind == if key.AnyKind? then old(anyKind) + {id} else old(anyKind)
      ensures forall k, c :: c in Bucket(byKind, k) <==>
                c in Bucket(old(byKind), k) || (c == id && key.SomeKinds? && k in key.kinds)
    {
      match key {
        case NoKinds =>
        case AnyKind => anyKind := anyKind + {id};
        case SomeKinds(kinds) => byKind := AddKinds(byKind, id, kinds);
      }
    }

    method Unregister(id: ConnId)
      requires Valid() && id in states
      modifies this
      ensures Valid()
      ensures conns == old(conns) - {id}
      ensures states == old(states)[id := old(states)[id].(key := NoKinds)]
    {
      hide IsKeyOf, DropsRecorded, DistinctIds;
      conns := conns - {id};
      Deindex(id, states[id].key);
      states := states[id := states[id].(key := NoKinds)];
      SubsLeaveDropsAlone(old(states)[id], states[id]);
    }

    method Reindex(id: ConnId)
      requires id in states && IndexedBy(states, byKind, anyKind)
      modifies this`byKind, this`anyKind, this`states
      ensures IndexedBy(states, byKind, anyKind)
      ensures id in states && IsKeyOf(states[id].key, states[id].subs)
      ensures states == old(states)[id := old(states)[id].(key := states[id].key)]
    {
      var key := states[id].key;
      var newKey := ComputeKey(states[id].subs);
      if key == newKey {
        assert states == states[id := states[id]];
        return;
      }
      Deindex(id, key);
      Index(id, newKey);
      states := states[id := states[id].(key := newKey)];
    }

    /** The connection may have been unregistered meanwhile; the call is then harmless. */
    method SetSub(id: ConnId, sub: string, filters: seq<Filter>)
      requires Valid() && id in states
      modifies this
      ensures Valid() && conns == old(conns)
      ensures id in states && states == old(states)[id := old(states)[id].(
                subs := WithSub(old(states)[id].subs, sub, filters), key := states[id].key)]
      ensures forall s :: s in states[id].subs <==>
                s == Sub(sub, filters) || (s in old(states)[id].subs && s.id != sub)
    {
      hide IsKeyOf, DropsRecorded, DistinctIds, WithSub, IndexedBy;
      var c := states[id];
      WithSubDistinct(c.subs, sub, filters);
      SubAdded(c, id in conns, sub, filters);
      states := states[id := c.(subs := WithSub(c.subs, sub, filters))];
      SameKeyStaysIndexed(old(states), byKind, anyKind, id, states[id]);
      Reindex(id);
      SubsLeaveDropsAlone(c, states[id]);
    }

    method RemoveSub(id: ConnId, sub: string) returns (removed: bool)
      requires Valid() && id in states
      modifies this
      ensures Valid() && conns == old(conns)
      ensures removed <==> exists s :: s in old(states)[id].subs && s.id == sub
      ensures id in states && states == old(states)[id := old(states)[id].(
                subs := Retain(old(states)[id].subs, sub), key := states[id].key)]
      ensures forall s :: s in states[id].subs <==> s in old(states)[id].subs && s.id != sub
    {
      hide IsKeyOf, DropsRecorded, DistinctIds, Retain, IndexedBy;
      var c := states[id];
      RetainCounts(c.subs, sub);
      RetainDistinct(c.subs, sub);
      RetainAre(c.subs, sub);
      states := states[id := c.(subs := Retain(c.subs, sub))];
      SameKeyStaysIndexed(old(states), byKind, anyKind, id, states[id]);
      removed := |states[id].subs| != |c.subs|;
      if removed {
        Reindex(id);
      } else {
        assert states[id] == c;
      }
      SubsLeaveDropsAlone(c, states[id]);
    }

    /** Routing through the kind index is indistinguishable from broadcasting: it attempts
        exactly the deliveries a walk over all registered connections would, each once, and
        leaves every connection as that walk would. */
    method Publish(e: Event, clocks: ConnId -> Clock) returns (attempts: seq<(ConnId, string)>)
      requires Valid()
      modifies this`states
      ensures Valid()
      ensures IsBroadcast(old(states), conns, e, clocks, states, attempts)
      ensures forall id :: id in conns ==> id in old(states) && id in states
      ensures forall id :: id in conns ==> Delivered(old(states)[id], states[id], e)
      ensures forall id :: id in old(states) && id !in conns ==> id in states && states[id] == old(states)[id]
    {
      hide IsBroadcast, IndexedBy, HealthyConn, Wanted;
      UnroutedChangeNothing(states, conns, byKind, anyKind, e);
      if anyKind == {} && e.kind !in byKind {
        assert Routed(anyKind, byKind, e.kind) == {};
        attempts := [];
        NothingToDeliver(states, conns, e, clocks);
        BroadcastDelivers(old(states), conns, e, clocks, states, attempts);
        return;
      }
      // first the connections indexed under any kind, then those under this one
      ghost var before := states;
      states, attempts := DeliverTo(states, conns, anyKind, e, clocks);
      BroadcastKeepsIndex(before, conns, byKind, anyKind, anyKind, e, clocks, states, attempts);
      ghost var middle, first := states, attempts;
      var more;
      states, more := DeliverTo(states, conns, Bucket(byKind, e.kind), e, clocks);
      BroadcastKeepsIndex(middle, conns, byKind, anyKind, Bucket(byKind, e.kind), e, clocks, states, more);
      attempts := attempts + more;
      NeverIndexedTwice(before, byKind, anyKind, e.kind);
      BroadcastInTwo(before, conns, anyKind, Bucket(byKind, e.kind), e, clocks, middle, first, states, more);
      RoutedIsBroadcast(before, conns, byKind, anyKind, e, clocks, states, attempts);
      BroadcastDelivers(before, conns, e, clocks, states, attempts);
    }
  }

  /** No connection is in both parts of the index, so none is delivered to twice. */
  lemma NeverIndexedTwice(states: map<ConnId, Conn>, byKind: ByKind, anyKind: set<ConnId>, kind: nat)
    requires IndexedBy(states, byKind, anyKind)
    ensures anyKind !! Bucket(byKind, kind)
  {
  }

  lemma SameKeyStaysIndexed(states: map<ConnId, Conn>, byKind: ByKind, anyKind: set<ConnId>, id: ConnId, c: Conn)
    requires IndexedBy(states, byKind, anyKind) && id in states && c.key == states[id].key
    ensures IndexedBy(states[id := c], byKind, anyKind)
  {
  }

  lemma SubAdded(c: Conn, registered: bool, sub: string, filters: seq<Filter>)
    requires HealthyConn(c, registered)
    ensures forall s :: s in WithSub(c.subs, sub, filters) <==> s == Sub(sub, filters) || (s in c.subs && s.id != sub)
  {
    WithSubAre(c.subs, sub, filters);
  }

  lemma SubsLeaveDropsAlone(c: Conn, d: Conn)
    requires DropsRecorded(c) && d == c.(subs := d.subs, key := d.key)
    ensures DropsRecorded(d)
  {
  }

  function Routed(anyKind: set<ConnId>, byKind: ByKind, kind: nat): set<ConnId> {
    anyKind + Bucket(byKind, kind)
  }

  /** The deliveries and the new connection states a walk over all registered connections
      gives: exactly the subscriptions that want the event, each once. */
  ghost predicate IsBroadcast(before: map<ConnId, Conn>, conns: set<ConnId>, e: Event, clocks: ConnId -> Clock,
                              after: map<ConnId, Conn>, attempts: seq<(ConnId, string)>)
  {
    && after.Keys == before.Keys
    && (forall id :: id in before ==> after[id] == Broadcast(before[id], id in conns, e, clocks(id)))
    && (forall id, sub :: (id, sub) in attempts <==> id in conns && id in before && sub in Wanted(before[id].subs, e))
    && OnceEach(attempts)
  }

  method DeliverTo(start: map<ConnId, Conn>, conns: set<ConnId>, targets: set<ConnId>, e: Event,
                   clocks: ConnId -> Clock)
    returns (states: map<ConnId, Conn>, attempts: seq<(ConnId, string)>)
    requires Healthy(start, conns)
    ensures IsBroadcast(start, conns * targets, e, clocks, states, attempts)
  {
    hide OfferAll, Wanted, DropsRecorded, IsKeyOf, DistinctIds;
    states, attempts := start, [];
    var todo := targets;
    assert forall id :: id in conns * (targets - todo) ==> false;
    while todo != {}
      invariant todo <= targets
      invariant IsBroadcast(start, conns * (targets - todo), e, clocks, states, attempts)
      decreases |todo|
    {
      var id :| id in todo;
      if id in conns {
        assert states[id] == start[id] && HealthyConn(start[id], true);
        var c, wanted := Deliver(states[id], e, clocks(id));
        WantedOnce(start[id].subs, e);
        states := states[id := c];
        attempts := Tagged(attempts, id, wanted);
      }
      todo := todo - {id};
    }
    assert conns * (targets - todo) == conns * targets;
  }

  lemma UnroutedChangeNothing(states: map<ConnId, Conn>, conns: set<ConnId>, byKind: ByKind, anyKind: set<ConnId>,
                              e: Event)
    requires IndexedBy(states, byKind, anyKind) && Healthy(states, conns)
    ensures forall id :: id in conns && id !in Routed(anyKind, byKind, e.kind) ==> Wanted(states[id].subs, e) == []
  {
    hide DropsRecorded, DistinctIds, IsKeyOf, Wanted;
    forall id | id in conns && id !in Routed(anyKind, byKind, e.kind) ensures Wanted(states[id].subs, e) == [] {
      assert HealthyConn(states[id], true);
      assert id !in Bucket(byKind, e.kind);
      UnroutedWantsNothing(states[id].key, states[id].subs, e);
    }
  }

  lemma NothingToDeliver(states: map<ConnId, Conn>, conns: set<ConnId>, e: Event, clocks: ConnId -> Clock)
    requires forall id :: id in conns ==> id in states && Wanted(states[id].subs, e) == []
    ensures IsBroadcast(states, conns, e, clocks, states, [])
  {
    hide Wanted;
  }

  lemma BroadcastKeepsIndex(before: map<ConnId, Conn>, conns: set<ConnId>, byKind: ByKind, anyKind: set<ConnId>,
                            targets: set<ConnId>, e: Event, clocks: ConnId -> Clock,
                            after: map<ConnId, Conn>, attempts: seq<(ConnId, string)>)
    requires IndexedBy(before, byKind, anyKind) && Healthy(before, conns)
    requires IsBroadcast(before, conns * targets, e, clocks, after, attempts)
    ensures IndexedBy(after, byKind, anyKind) && Healthy(after, conns) && after.Keys == before.Keys
    ensures forall id :: id in before ==> after[id].subs == before[id].subs
  {
    hide Wanted, DropsRecorded, DistinctIds, IsKeyOf;
    forall id | id in before
      ensures SameSubs(before[id], after[id]) && HealthyConn(after[id], id in conns)
    {
      OfferAllCounts(before[id], Wanted(before[id].subs, e), e, clocks(id));
      assert HealthyConn(before[id], id in conns);
    }
  }

  /** Two walks over disjoint sets of connections make one. */
  lemma BroadcastInTwo(before: map<ConnId, Conn>, conns: set<ConnId>, a: set<ConnId>, b: set<ConnId>, e: Event,
                       clocks: ConnId -> Clock, middle: map<ConnId, Conn>, first: seq<(ConnId, string)>,
                       after: map<ConnId, Conn>, second: seq<(ConnId, string)>)
    requires a !! b && conns <= before.Keys
    requires IsBroadcast(before, conns * a, e, clocks, middle, first)
    requires IsBroadcast(middle, conns * b, e, clocks, after, second)
    ensures IsBroadcast(before, conns * (a + b), e, clocks, after, first + second)
  {
    hide Wanted, OfferAll;
    forall id | id in before ensures after[id] == Broadcast(before[id], id in conns * (a + b), e, clocks(id)) {
      assert id in a ==> id !in b;
    }
    forall id, sub
      ensures (id, sub) in first + second <==>
              id in conns * (a + b) && id in before && sub in Wanted(before[id].subs, e)
    {
      if id in b { assert id !in a; }
    }
    OnceEachConcat(first, second, a, b);
  }

  lemma OnceEachConcat(first: seq<(ConnId, string)>, second: seq<(ConnId, string)>, a: set<ConnId>, b: set<ConnId>)
    requires OnceEach(first) && OnceEach(second) && a !! b
    requires forall id, sub :: (id, sub) in first ==> id in a
    requires forall id, sub :: (id, sub) in second ==> id in b
    ensures OnceEach(first + second)
  {
    var all := first + second;
    forall i, j | 0 <= i < j < |all| ensures all[i] != all[j] {
      if i < |first| <= j {
        assert (all[i].0, all[i].1) in first && (all[j].0, all[j].1) in second;
      }
    }
  }

  lemma RoutedIsBroadcast(before: map<ConnId, Conn>, conns: set<ConnId>, byKind: ByKind, anyKind: set<ConnId>, e: Event,
                          clocks: ConnId -> Clock, after: map<ConnId, Conn>, attempts: seq<(ConnId, string)>)
    requires IsBroadcast(before, conns * Routed(anyKind, byKind, e.kind), e, clocks, after, attempts)
    requires conns <= before.Keys
    requires forall id :: id in conns && id !in Routed(anyKind, byKind, e.kind) ==> Wanted(before[id].subs, e) == []
    ensures IsBroadcast(before, conns, e, clocks, after, attempts)
  {
    hide Wanted;
    forall id | id in before ensures after[id] == Broadcast(before[id], id in conns, e, clocks(id)) {
      if id in conns && id !in Routed(anyKind, byKind, e.kind) { OfferNothing(before[id], e, clocks(id)); }
    }
  }

  lemma BroadcastDelivers(before: map<ConnId, Conn>, conns: set<ConnId>, e: Event, clocks: ConnId -> Clock,
                          after: map<ConnId, Conn>, attempts: seq<(ConnId, string)>)
    requires IsBroadcast(before, conns, e, clocks, after, attempts) && conns <= before.Keys
    ensures forall id :: id in conns ==> id in after && Delivered(before[id], after[id], e)
    ensures forall id :: id in before && id !in conns ==> id in after && after[id] == before[id]
  {
    hide Delivered, OfferAll, Wanted;
    forall id | id in conns ensures id in after && Delivered(before[id], after[id], e) {
      DeliveryIs(before[id], e, clocks(id));
    }
  }

  lemma OfferNothing(c: Conn, e: Event, clock: Clock)
    ensures OfferAll(c, [], e, clock) == c
  {
  }

  /** Every attempt is counted once, as sent or as dropped. */
  lemma AttemptsAreCounted(c: Conn, registered: bool, e: Event, clock: Clock)
    ensures var d := Broadcast(c, registered, e, clock);
            d.sent + d.dropped == c.sent + c.dropped + if registered then |Wanted(c.subs, e)| else 0
  {
    OfferAllCounts(c, Wanted(c.subs, e), e, clock);
  }

  /** What a walk over all connections leaves of one of them. */
  function Broadcast(c: Conn, registered: bool, e: Event, clock: Clock): Conn {
    if registered then OfferAll(c, Wanted(c.subs, e), e, clock) else c
  }

  ghost predicate OnceEach(attempts: seq<(ConnId, string)>) {
    forall i, j :: 0 <= i < j < |attempts| ==> attempts[i] != attempts[j]
  }

  function Tagged(attempts: seq<(ConnId, string)>, id: ConnId, wanted: seq<string>): (r: seq<(ConnId, string)>)
    ensures forall i, sub :: (i, sub) in r <==> (i, sub) in attempts || (i == id && sub in wanted)
    ensures OnceEach(attempts) && NoRepeats(wanted) && (forall sub :: (id, sub) !in attempts) ==> OnceEach(r)
  {
    var tail := seq(|wanted|, i requires 0 <= i < |wanted| => (id, wanted[i]));
    assert forall i :: 0 <= i < |wanted| ==> tail[i] == (id, wanted[i]);
    attempts + tail
  }
}
