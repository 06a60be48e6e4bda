/** The sharded eviction index: picking the oldest events over all shards, and the
    newest-events fallback of the query planner (src/store/index.rs:235-244, 643-718). */
module Oldest {
  import opened Events
  import EventSets

  const OLDEST_SHARDS: nat := 64
  const USIZE: nat := 0x1_0000_0000_0000_0000

  function ShardHash(bytes: Bytes): nat {
    if bytes == [] then 0
    else (ShardHash(bytes[..|bytes| - 1]) * 31 % USIZE + bytes[|bytes| - 1] as nat) % USIZE
  }

  /** The first eight bytes of the id choose the shard. */
  function ShardOf(id: Id): (r: nat)
    ensures r < OLDEST_SHARDS
  {
    ShardHash(id[..8]) % OLDEST_SHARDS
  }

  ghost function All(shards: seq<seq<Event>>): set<Event> {
    set a, b | 0 <= a < |shards| && 0 <= b < |shards[a]| :: shards[a][b]
  }

  /** Sorted shards that share no event, holding one event per id. */
  ghost predicate ValidShards(cat: Catalogue, shards: seq<seq<Event>>) {
    && (forall a :: 0 <= a < |shards| ==> EventSets.Sorted(shards[a]))
    && (forall a, b :: 0 <= a < |shards| && 0 <= b < |shards[a]| ==> Genuine(cat, shards[a][b]))
    && (forall a, b, c, d ::
          0 <= a < |shards| && 0 <= b < |shards[a]| && 0 <= c < |shards| && 0 <= d < |shards[c]| ==>
          shards[a][b] == shards[c][d] ==> a == c && b == d)
  }

  /** `(a, b)` comes before the scan position: shard `i`, from the oldest down to index `j`. */
  predicate Visited(a: nat, b: nat, i: nat, j: nat) {
    a < i || (a == i && b >= j)
  }

  /** What the scan of `get_oldest` keeps true at position `(i, j)`. The heap is held in
      pop order, so `heap[0]` is what `peek` shows. */
  ghost predicate ScanInv(cat: Catalogue, shards: seq<seq<Event>>, count: nat, i: nat, j: nat, heap: seq<Event>) {
    && EventSets.Sorted(heap)
    && |heap| <= count
    && (forall x :: x in heap ==> x in All(shards) && Genuine(cat, x))
    && (forall a, b :: 0 <= a < |shards| && 0 <= b < |shards[a]| && !Visited(a, b, i, j) ==> shards[a][b] !in heap)
    && (forall a, b :: 0 <= a < |shards| && 0 <= b < |shards[a]| && Visited(a, b, i, j) ==>
          shards[a][b] in heap || LeftOut(heap, count, shards[a][b]))
  }

  /** The heap is full and `x` is no older than anything in it. */
  predicate LeftOut(heap: seq<Event>, count: nat, x: Event) {
    |heap| == count > 0 && x.createdAt >= heap[0].createdAt
  }

  lemma PushKeepsScan(cat: Catalogue, shards: seq<seq<Event>>, count: nat, i: nat, j: nat, heap: seq<Event>)
    requires ValidShards(cat, shards) && i < |shards| && 0 < j <= |shards[i]|
    requires ScanInv(cat, shards, count, i, j, heap) && |heap| < count
    ensures ScanInv(cat, shards, count, i, j - 1, EventSets.Insert(heap, shards[i][j - 1]))
  {
    var er := shards[i][j - 1];
    assert !Visited(i, j - 1, i, j);
    EventSets.InsertKeepsOrder(heap, er);
    forall a, b | 0 <= a < |shards| && 0 <= b < |shards[a]| && Visited(a, b, i, j - 1)
      ensures shards[a][b] in EventSets.Insert(heap, er)
    {
      if !(a == i && b == j - 1) { assert Visited(a, b, i, j); }
    }
  }

  lemma SwapKeepsScan(cat: Catalogue, shards: seq<seq<Event>>, count: nat, i: nat, j: nat, heap: seq<Event>)
    requires ValidShards(cat, shards) && i < |shards| && 0 < j <= |shards[i]|
    requires ScanInv(cat, shards, count, i, j, heap) && |heap| == count > 0
    requires shards[i][j - 1].createdAt < heap[0].createdAt
    ensures ScanInv(cat, shards, count, i, j - 1, EventSets.Insert(heap[1..], shards[i][j - 1]))
  {
    var er := shards[i][j - 1];
    var rest := heap[1..];
    assert !Visited(i, j - 1, i, j);
    assert forall x :: x in heap <==> x == heap[0] || x in rest;
    EventSets.InsertKeepsOrder(rest, er);
    var heap' := EventSets.Insert(rest, er);
    assert heap'[0] in heap';
    assert heap'[0].createdAt <= heap[0].createdAt by {
      if heap'[0] != er {
        var n :| 0 <= n < |rest| && rest[n] == heap'[0];
        assert Before(heap[0], heap[n + 1]);
      }
    }
    forall a, b | 0 <= a < |shards| && 0 <= b < |shards[a]| && Visited(a, b, i, j - 1)
      ensures shards[a][b] in heap' || LeftOut(heap', count, shards[a][b])
    {
      if !(a == i && b == j - 1) { assert Visited(a, b, i, j); }
    }
  }

  /** The early `break`: once the heap is full and the next event of this shard is not
      older than its newest member, nor is anything after it. */
  lemma BreakKeepsScan(cat: Catalogue, shards: seq<seq<Event>>, count: nat, i: nat, j: nat, heap: seq<Event>)
    requires ValidShards(cat, shards) && i < |shards| && 0 < j <= |shards[i]|
    requires ScanInv(cat, shards, count, i, j, heap) && |heap| == count > 0
    requires shards[i][j - 1].createdAt >= heap[0].createdAt
    ensures ScanInv(cat, shards, count, i, 0, heap)
  {
    forall a, b | 0 <= a < |shards| && 0 <= b < |shards[a]| && Visited(a, b, i, 0)
      ensures shards[a][b] in heap || LeftOut(heap, count, shards[a][b])
    {
      if a == i && b < j - 1 { assert Before(shards[a][b], shards[a][j - 1]); }
    }
  }

  lemma ShardDone(cat: Catalogue, shards: seq<seq<Event>>, count: nat, i: nat, heap: seq<Event>)
    requires i < |shards| && ScanInv(cat, shards, count, i, 0, heap)
    ensures ScanInv(cat, shards, count, i + 1, if i + 1 < |shards| then |shards[i + 1]| else 0, heap)
  {
  }

  /** One shard of `get_oldest`, oldest first, with its early exit. */
  method ScanShard(ghost cat: Catalogue, shards: seq<seq<Event>>, count: nat, i: nat, start: seq<Event>)
    returns (heap: seq<Event>)
    requires ValidShards(cat, shards) && i < |shards|
    requires count >= 1 || All(shards) == {}
    requires ScanInv(cat, shards, count, i, |shards[i]|, start)
    ensures ScanInv(cat, shards, count, i, 0, heap)
  {
    heap := start;
    var j := |shards[i]|;
    while j > 0
      invariant 0 <= j <= |shards[i]|
      invariant ScanInv(cat, shards, count, i, j, heap)
    {
      var er := shards[i][j - 1];
      assert er in All(shards);
      if |heap| < count {
        PushKeepsScan(cat, shards, count, i, j, heap);
        heap := EventSets.Insert(heap, er);
      } else if er.createdAt < heap[0].createdAt {
        SwapKeepsScan(cat, shards, count, i, j, heap);
        heap := EventSets.Insert(heap[1..], er);
      } else {
        BreakKeepsScan(cat, shards, count, i, j, heap);
        return;
      }
      j := j - 1;
    }
  }

  /** `get_oldest` asks the heap for its top, so it needs room for one event
      unless every shard is empty. */
  method GetOldest(ghost cat: Catalogue, shards: seq<seq<Event>>, count: nat) returns (oldest: seq<Event>)
    requires ValidShards(cat, shards)
    requires count >= 1 || All(shards) == {}
    ensures forall x :: x in oldest ==> x in All(shards)
    ensures forall i, j :: 0 <= i < j < |oldest| ==> Before(oldest[j], oldest[i])
    ensures |oldest| == if count <= |All(shards)| then count else |All(shards)|
    ensures forall x, y :: x in All(shards) && x !in oldest && y in oldest ==> y.createdAt <= x.createdAt
  {
    var heap: seq<Event> := [];
    var i := 0;
    while i < |shards|
      invariant i <= |shards|
      invariant ScanInv(cat, shards, count, i, if i < |shards| then |shards[i]| else 0, heap)
    {
      heap := ScanShard(cat, shards, count, i, heap);
      ShardDone(cat, shards, count, i, heap);
      i := i + 1;
    }
    HeapIsTheAnswer(cat, shards, count, heap);
    oldest := Drain(heap);
    oldest := Reverse(oldest);
  }

  /** Popping the heap until it is empty. */
  method Drain(start: seq<Event>) returns (popped: seq<Event>)
    ensures popped == start
  {
    var heap := start;
    popped := [];
    while heap != []
      invariant start == popped + heap
      decreases |heap|
    {
      popped, heap := popped + [heap[0]], heap[1..];
    }
  }

  function Reverse(s: seq<Event>): (r: seq<Event>)
    ensures |r| == |s|
    ensures forall i :: 0 <= i < |s| ==> r[i] == s[|s| - 1 - i]
    ensures forall x :: x in r <==> x in s
  {
    var r := seq(|s|, i requires 0 <= i < |s| => s[|s| - 1 - i]);
    assert forall i :: 0 <= i < |s| ==> s[i] == r[|s| - 1 - i];
    r
  }

  lemma SubsetCount<T>(a: set<T>, b: set<T>)
    requires a <= b
    ensures |a| <= |b|
  {
    assert b == a + (b - a);
  }

  lemma HeapIsTheAnswer(cat: Catalogue, shards: seq<seq<Event>>, count: nat, heap: seq<Event>)
    requires ScanInv(cat, shards, count, |shards|, 0, heap)
    ensures |heap| == if count <= |All(shards)| then count else |All(shards)|
    ensures forall x, y :: x in All(shards) && x !in heap && y in heap ==> y.createdAt <= x.createdAt
  {
    var all := All(shards);
    var kept := set x | x in heap;
    EventSets.SortedHasNoRepeats(heap);
    EventSets.DistinctCount(heap);
    SubsetCount(kept, all);
    forall x | x in all ensures x in heap || LeftOut(heap, count, x) {
      var a, b :| 0 <= a < |shards| && 0 <= b < |shards[a]| && shards[a][b] == x;
      assert Visited(a, b, |shards|, 0);
    }
    if |heap| < count { assert kept == all; }
    forall x, y | x in all && x !in heap && y in heap ensures y.createdAt <= x.createdAt {
      var n :| 0 <= n < |heap| && heap[n] == y;
      if n > 0 { assert Before(heap[0], heap[n]); }
    }
  }

  // ---------------------------------------------------------------- get_newest

  /** One shard of `get_newest`, newest first. */
  function ScanNewest(heap: seq<Event>, shard: seq<Event>, count: nat): seq<Event>
    requires count > 0
    decreases |shard|
  {
    if shard == [] then heap
    else if |heap| < count then ScanNewest(EventSets.Insert(heap, shard[0]), shard[1..], count)
    else if shard[0].createdAt > heap[0].createdAt then
      ScanNewest(EventSets.Insert(heap[1..], shard[0]), shard[1..], count)
    else heap
  }

  function NewestHeap(heap: seq<Event>, shards: seq<seq<Event>>, count: nat): seq<Event>
    requires count > 0
    decreases |shards|
  {
    if shards == [] then heap else NewestHeap(ScanNewest(heap, shards[0], count), shards[1..], count)
  }

  function GetNewest(shards: seq<seq<Event>>, count: nat): seq<Event> {
    if count == 0 then [] else Reverse(NewestHeap([], shards, count))
  }

  /** The loop over one shard, with its early exit. */
  method ScanShardForNewest(start: seq<Event>, shard: seq<Event>, count: nat) returns (heap: seq<Event>)
    requires count > 0
    ensures heap == ScanNewest(start, shard, count)
  {
    heap := start;
    var j := 0;
    assert shard[0..] == shard;
    while j < |shard|
      invariant j <= |shard| && ScanNewest(heap, shard[j..], count) == ScanNewest(start, shard, count)
    {
      var er := shard[j];
      assert shard[j..][0] == er && shard[j..][1..] == shard[j + 1..];
      if |heap| < count {
        heap := EventSets.Insert(heap, er);
      } else if er.createdAt > heap[0].createdAt {
        heap := EventSets.Insert(heap[1..], er);
      } else {
        return;
      }
      j := j + 1;
    }
  }

  method CollectNewest(shards: seq<seq<Event>>, count: nat) returns (newest: seq<Event>)
    ensures newest == GetNewest(shards, count)
  {
    if count == 0 {
      return [];
    }
    var heap: seq<Event> := [];
    var i := 0;
    assert shards[0..] == shards;
    while i < |shards|
      invariant i <= |shards| && NewestHeap(heap, shards[i..], count) == NewestHeap([], shards, count)
    {
      assert shards[i..][0] == shards[i] && shards[i..][1..] == shards[i + 1..];
      heap := ScanShardForNewest(heap, shards[i], count);
      i := i + 1;
    }
    newest := Drain(heap);
    newest := Reverse(newest);
  }

  ghost predicate RoomFor(cat: Catalogue, heap: seq<Event>, shard: seq<Event>, count: nat) {
    && EventSets.Sorted(heap) && EventSets.Sorted(shard)
    && |heap| + |shard| <= count
    && (forall x :: x in heap || x in shard ==> Genuine(cat, x))
  }

  lemma {:induction false} ScanNewestKeepsAll(cat: Catalogue, heap: seq<Event>, shard: seq<Event>, count: nat)
    requires count > 0 && RoomFor(cat, heap, shard, count)
    ensures EventSets.Sorted(ScanNewest(heap, shard, count))
    ensures forall x :: x in ScanNewest(heap, shard, count) <==> x in heap || x in shard
    ensures |ScanNewest(heap, shard, count)| <= |heap| + |shard|
    decreases |shard|
  {
    if shard != [] {
      assert Genuine(cat, shard[0]);
      EventSets.InsertKeepsOrder(heap, shard[0]);
      assert shard == [shard[0]] + shard[1..];
      ScanNewestKeepsAll(cat, EventSets.Insert(heap, shard[0]), shard[1..], count);
    }
  }

  function Total(shards: seq<seq<Event>>): nat {
    if shards == [] then 0 else |shards[0]| + Total(shards[1..])
  }

  lemma {:induction false} NewestHeapKeepsAll(cat: Catalogue, heap: seq<Event>, shards: seq<seq<Event>>, count: nat)
    requires count > 0 && |heap| + Total(shards) <= count
    requires EventSets.Sorted(heap) && forall x :: x in heap ==> Genuine(cat, x)
    requires forall s :: s in shards ==> EventSets.Sorted(s) && forall x :: x in s ==> Genuine(cat, x)
    ensures EventSets.Sorted(NewestHeap(heap, shards, count))
    ensures forall x :: x in NewestHeap(heap, shards, count) <==> x in heap || x in All(shards)
    decreases |shards|
  {
    if shards != [] {
      assert forall s :: s in shards[1..] ==> s in shards;
      assert shards[0] in shards;
      ScanNewestKeepsAll(cat, heap, shards[0], count);
      NewestHeapKeepsAll(cat, ScanNewest(heap, shards[0], count), shards[1..], count);
      AllSplit(shards);
    }
  }

  lemma AllSplit(shards: seq<seq<Event>>)
    requires shards != []
    ensures forall x :: x in All(shards) <==> x in shards[0] || x in All(shards[1..])
  {
    var rest := shards[1..];
    forall x | x in All(rest) ensures x in All(shards) {
      var a, b :| 0 <= a < |rest| && 0 <= b < |rest[a]| && rest[a][b] == x;
      assert shards[a + 1][b] == x;
    }
    forall x | x in All(shards) && x !in shards[0] ensures x in All(rest) {
      var a, b :| 0 <= a < |shards| && 0 <= b < |shards[a]| && shards[a][b] == x;
      assert rest[a - 1][b] == x;
    }
  }

  /** With room for everything, `get_newest` returns every event once; it lists them
      oldest first, against its own comment. */
  lemma GetNewestWithRoomForAll(cat: Catalogue, shards: seq<seq<Event>>, count: nat)
    requires ValidShards(cat, shards) && Total(shards) <= count
    ensures forall x :: x in GetNewest(shards, count) <==> x in All(shards)
    ensures var r := GetNewest(shards, count);
            forall i, j :: 0 <= i < j < |r| ==> Before(r[j], r[i]) && r[i] != r[j]
  {
    forall s | s in shards ensures EventSets.Sorted(s) && forall x :: x in s ==> Genuine(cat, x) {
      var a :| 0 <= a < |shards| && shards[a] == s;
    }
    if count > 0 {
      NewestHeapKeepsAll(cat, [], shards, count);
      EventSets.SortedHasNoRepeats(NewestHeap([], shards, count));
    } else {
      NothingStored(shards);
    }
  }

  lemma {:induction false} NothingStored(shards: seq<seq<Event>>)
    requires Total(shards) == 0
    ensures All(shards) == {}
  {
    if shards != [] {
      NothingStored(shards[1..]);
      AllSplit(shards);
    }
  }

  // ---------------------------------------------------------------- what get_newest keeps

  function Flatten(shards: seq<seq<Event>>): seq<Event> {
    if shards == [] then [] else shards[0] + Flatten(shards[1..])
  }

  function InsertAll(heap: seq<Event>, es: seq<Event>): seq<Event>
    decreases |es|
  {
    if es == [] then heap else InsertAll(EventSets.Insert(heap, es[0]), es[1..])
  }

  /** `t`, or the first of the events heading a shard that is newer than all before it. */
  function NewestOf(t: Event, shards: seq<seq<Event>>): Event
    decreases |shards|
  {
    if shards == [] then t
    else NewestOf(if shards[0] != [] && shards[0][0].createdAt > t.createdAt then shards[0][0] else t, shards[1..])
  }

  ghost predicate Apart(s: seq<Event>) {
    forall i, j :: 0 <= i < j < |s| ==> s[i] != s[j]
  }

  /** What the scan needs to know of the heap and the events still to come. */
  ghost predicate Scannable(cat: Catalogue, heap: seq<Event>, es: seq<Event>) {
    EventSets.Sorted(heap) && Apart(heap + es) && forall x :: x in heap + es ==> Genuine(cat, x)
  }

  lemma PlaceOf(heap: seq<Event>, es: seq<Event>, x: Event)
    requires es != [] && (x in heap || x == es[0])
    ensures exists k :: 0 <= k <= |heap| && (heap + es)[k] == x
  {
    if x in heap {
      var k :| 0 <= k < |heap| && heap[k] == x;
      assert (heap + es)[k] == x;
    } else {
      assert (heap + es)[|heap|] == x;
    }
  }

  lemma InsertOne(cat: Catalogue, heap: seq<Event>, es: seq<Event>)
    requires es != [] && Scannable(cat, heap, es)
    ensures var h := EventSets.Insert(heap, es[0]);
            && Scannable(cat, h, es[1..]) && |h| == |heap| + 1
            && (forall x :: x in h <==> x in heap || x == es[0])
  {
    var e, h := es[0], EventSets.Insert(heap, es[0]);
    assert (heap + es)[|heap|] == e && e in heap + es;
    assert e !in heap by {
      forall i | 0 <= i < |heap| ensures heap[i] != e { assert (heap + es)[i] == heap[i]; }
    }
    assert forall x :: x in heap ==> x in heap + es;
    EventSets.InsertKeepsOrder(heap, e);
    EventSets.SortedHasNoRepeats(h);
    var all := h + es[1..];
    forall i, j | 0 <= i < j < |all| ensures all[i] != all[j] {
      if j >= |h| {
        assert all[j] == (heap + es)[|heap| + 1 + (j - |h|)];
        if i >= |h| {
          assert all[i] == (heap + es)[|heap| + 1 + (i - |h|)];
        } else {
          assert h[i] in h;
          PlaceOf(heap, es, h[i]);
        }
      }
    }
    forall x | x in all ensures Genuine(cat, x) { assert x in heap + es; }
  }

  lemma {:induction false} InsertAllKeeps(cat: Catalogue, heap: seq<Event>, es: seq<Event>)
    requires Scannable(cat, heap, es)
    ensures var h := InsertAll(heap, es);
            && EventSets.Sorted(h) && |h| == |heap| + |es|
            && (forall x :: x in h <==> x in heap || x in es)
    decreases |es|
  {
    if es != [] {
      InsertOne(cat, heap, es);
      InsertAllKeeps(cat, EventSets.Insert(heap, es[0]), es[1..]);
      assert es == [es[0]] + es[1..];
    }
  }

  lemma {:induction false} InsertAllAppend(heap: seq<Event>, a: seq<Event>, b: seq<Event>)
    ensures InsertAll(heap, a + b) == InsertAll(InsertAll(heap, a), b)
    decreases |a|
  {
    if a == [] {
      assert a + b == b;
    } else {
      assert (a + b)[1..] == a[1..] + b;
      InsertAllAppend(EventSets.Insert(heap, a[0]), a[1..], b);
    }
  }

  /** In a sorted heap nothing is newer than the top. */
  lemma TopIsNewest(h: seq<Event>)
    requires EventSets.Sorted(h) && h != []
    ensures forall x :: x in h ==> x.createdAt <= h[0].createdAt
  {
    forall x | x in h ensures x.createdAt <= h[0].createdAt {
      var i :| 0 <= i < |h| && h[i] == x;
      if i > 0 { assert Before(h[0], h[i]); }
    }
  }

  /** While there is room every event of a shard goes in; once there is none, what is left of the
      shard is no newer than the top. */
  lemma {:induction false} ScanFills(cat: Catalogue, heap: seq<Event>, shard: seq<Event>, count: nat)
    requires |heap| < count && Scannable(cat, heap, shard) && EventSets.Sorted(shard)
    ensures ScanNewest(heap, shard, count) ==
            InsertAll(heap, if |heap| + |shard| <= count then shard else shard[..count - |heap|])
    decreases |shard|
  {
    if shard != [] {
      var h := EventSets.Insert(heap, shard[0]);
      InsertOne(cat, heap, shard);
      if |h| < count {
        ScanFills(cat, h, shard[1..], count);
        if |heap| + |shard| > count { assert shard[..count - |heap|][1..] == shard[1..][..count - |h|]; }
      } else {
        TopIsNewest(h);
        if |shard| > 1 {
          assert Before(shard[0], shard[1]);
          assert shard[..1][1..] == [];
        }
      }
    }
  }

  /** With no room left only the top of the heap changes, and only for a newer event. */
  lemma ScanFull(heap: seq<Event>, shard: seq<Event>, count: nat)
    requires |heap| == count > 0 && EventSets.Sorted(heap) && EventSets.Sorted(shard)
    ensures ScanNewest(heap, shard, count) ==
            [if shard != [] && shard[0].createdAt > heap[0].createdAt then shard[0] else heap[0]] + heap[1..]
    ensures EventSets.Sorted(ScanNewest(heap, shard, count))
  {
    assert heap == [heap[0]] + heap[1..];
    if shard != [] && shard[0].createdAt > heap[0].createdAt {
      var rest := heap[1..];
      if rest != [] { assert Before(heap[0], heap[1]); }
      var h := EventSets.Insert(rest, shard[0]);
      assert h == [shard[0]] + rest;
      EventSets.SortedCons(shard[0], rest);
      if |shard| > 1 { assert Before(shard[0], shard[1]); }
      assert ScanNewest(h, shard[1..], count) == h;
    }
  }

  lemma {:induction false} NewestHeapFull(heap: seq<Event>, shards: seq<seq<Event>>, count: nat)
    requires |heap| == count > 0 && EventSets.Sorted(heap) && forall s :: s in shards ==> EventSets.Sorted(s)
    ensures NewestHeap(heap, shards, count) == [NewestOf(heap[0], shards)] + heap[1..]
    decreases |shards|
  {
    if shards == [] {
      assert heap == [heap[0]] + heap[1..];
    } else {
      assert shards[0] in shards && forall s :: s in shards[1..] ==> s in shards;
      ScanFull(heap, shards[0], count);
      NewestHeapFull(ScanNewest(heap, shards[0], count), shards[1..], count);
    }
  }

  lemma ScannablePrefix(cat: Catalogue, heap: seq<Event>, a: seq<Event>, b: seq<Event>)
    requires Scannable(cat, heap, a + b)
    ensures Scannable(cat, heap, a)
  {
    assert heap + (a + b) == (heap + a) + b;
    assert forall i :: 0 <= i < |heap + a| ==> (heap + (a + b))[i] == (heap + a)[i];
    forall x | x in heap + a ensures Genuine(cat, x) { assert x in heap + (a + b); }
  }

  lemma {:induction false} ScannableAfter(cat: Catalogue, heap: seq<Event>, a: seq<Event>, b: seq<Event>)
    requires Scannable(cat, heap, a + b)
    ensures Scannable(cat, InsertAll(heap, a), b)
    decreases |a|
  {
    if a == [] {
      assert a + b == b;
    } else {
      assert (a + b)[1..] == a[1..] + b;
      InsertOne(cat, heap, a + b);
      ScannableAfter(cat, EventSets.Insert(heap, a[0]), a[1..], b);
    }
  }

  lemma {:induction false} NewestOfOlder(t: Event, shards: seq<seq<Event>>)
    requires forall x :: x in Flatten(shards) ==> x.createdAt <= t.createdAt
    ensures NewestOf(t, shards) == t
    decreases |shards|
  {
    if shards != [] {
      assert forall x :: x in shards[0] ==> x in Flatten(shards);
      assert shards[0] != [] ==> shards[0][0] in shards[0];
      NewestOfOlder(t, shards[1..]);
    }
  }

  /** The heap that `full`, the first events to fill it, ends up as. */
  function Topped(full: seq<Event>, shards: seq<seq<Event>>): seq<Event> {
    if full == [] then [] else [NewestOf(full[0], shards)] + full[1..]
  }

  function KeptFrom(heap: seq<Event>, shards: seq<seq<Event>>, count: nat): seq<Event>
    requires |heap| < count
  {
    var es, room := Flatten(shards), count - |heap|;
    if |es| <= room then InsertAll(heap, es) else Topped(InsertAll(heap, es[..room]), shards)
  }

  lemma ShardFits(cat: Catalogue, heap: seq<Event>, shards: seq<seq<Event>>, count: nat)
    requires shards != [] && |heap| + |shards[0]| < count && Scannable(cat, heap, Flatten(shards))
    requires EventSets.Sorted(shards[0])
    ensures var h := InsertAll(heap, shards[0]);
            && |h| == |heap| + |shards[0]| && Scannable(cat, h, Flatten(shards[1..]))
            && ScanNewest(heap, shards[0], count) == h
            && KeptFrom(heap, shards, count) == KeptFrom(h, shards[1..], count)
  {
    hide Scannable, ScanNewest, InsertAll, EventSets.Sorted;
    var s, more, room := shards[0], Flatten(shards[1..]), count - |heap|;
    var es, h := Flatten(shards), InsertAll(heap, s);
    ScannablePrefix(cat, heap, s, more);
    ScanFills(cat, heap, s, count);
    InsertAllKeeps(cat, heap, s);
    ScannableAfter(cat, heap, s, more);
    InsertAllAppend(heap, s, more);
    if |es| > room {
      var first := more[..room - |s|];
      assert es[..room] == s + first && es == (s + first) + es[room..];
      InsertAllAppend(heap, s, first);
      FullTop(cat, heap, s, s + first, es[room..]);
    }
  }

  lemma ShardFillsUp(cat: Catalogue, heap: seq<Event>, shards: seq<seq<Event>>, count: nat)
    requires shards != [] && |heap| < count <= |heap| + |shards[0]| && Scannable(cat, heap, Flatten(shards))
    requires forall s :: s in shards ==> EventSets.Sorted(s)
    ensures NewestHeap(heap, shards, count) == KeptFrom(heap, shards, count)
  {
    hide Scannable, ScanNewest, InsertAll, EventSets.Sorted;
    var s, rest, room := shards[0], shards[1..], count - |heap|;
    var es, first := Flatten(shards), shards[0][..room];
    var full := InsertAll(heap, first);
    assert s in shards && forall q :: q in rest ==> q in shards;
    assert es == s + Flatten(rest);
    assert es[..room] == first && es == first + es[room..] && (|s| == room ==> s == first);
    ScannablePrefix(cat, heap, s, Flatten(rest));
    ScanFills(cat, heap, s, count);
    ScannablePrefix(cat, heap, first, es[room..]);
    InsertAllKeeps(cat, heap, first);
    assert NewestHeap(heap, shards, count) == NewestHeap(full, rest, count);
    NewestHeapFull(full, rest, count);
    FullTopOf(cat, heap, first, es[room..]);
    assert first[0] == s[0];
    if |es| == room {
      assert Flatten(rest) == [] && es == first;
      NothingNewer(full[0], rest);
      assert full == [full[0]] + full[1..];
    }
  }

  lemma FullTopOf(cat: Catalogue, heap: seq<Event>, first: seq<Event>, rest: seq<Event>)
    requires Scannable(cat, heap, first + rest) && first != []
    ensures InsertAll(heap, first) != [] && first[0].createdAt <= InsertAll(heap, first)[0].createdAt
  {
    ScannablePrefix(cat, heap, first, rest);
    InsertAllKeeps(cat, heap, first);
    assert first[0] in first;
    TopIsNewest(InsertAll(heap, first));
  }

  /** What the scan keeps, for every count: the first `count` events it meets, except that a
      newest event of all takes the place of the newest of these. */
  lemma {:induction false} NewestHeapIs(cat: Catalogue, heap: seq<Event>, shards: seq<seq<Event>>, count: nat)
    requires |heap| < count && Scannable(cat, heap, Flatten(shards)) && forall s :: s in shards ==> EventSets.Sorted(s)
    ensures NewestHeap(heap, shards, count) == KeptFrom(heap, shards, count)
    decreases |shards|
  {
    hide Scannable, ScanNewest, EventSets.Sorted, NewestOf;
    if shards != [] {
      assert shards[0] in shards && forall s :: s in shards[1..] ==> s in shards;
      if |heap| + |shards[0]| < count {
        ShardFits(cat, heap, shards, count);
        NewestHeapIs(cat, InsertAll(heap, shards[0]), shards[1..], count);
      } else {
        ShardFillsUp(cat, heap, shards, count);
      }
    }
  }

  lemma NothingNewer(t: Event, shards: seq<seq<Event>>)
    requires Flatten(shards) == []
    ensures NewestOf(t, shards) == t
  {
    NewestOfOlder(t, shards);
  }

  lemma FullTop(cat: Catalogue, heap: seq<Event>, s: seq<Event>, first: seq<Event>, rest: seq<Event>)
    requires Scannable(cat, heap, first + rest) && s <= first && EventSets.Sorted(s)
    ensures var full := InsertAll(heap, first);
            |full| == |heap| + |first| && (s != [] ==> s[0].createdAt <= full[0].createdAt)
  {
    ScannablePrefix(cat, heap, first, rest);
    InsertAllKeeps(cat, heap, first);
    if s != [] {
      assert s[0] == first[0] && s[0] in first;
      TopIsNewest(InsertAll(heap, first));
    }
  }

  lemma RestIsValid(cat: Catalogue, shards: seq<seq<Event>>)
    requires ValidShards(cat, shards) && shards != []
    ensures ValidShards(cat, shards[1..])
  {
    var rest := shards[1..];
    assert forall a :: 0 <= a < |rest| ==> rest[a] == shards[a + 1];
    forall a, b, c, d | 0 <= a < |rest| && 0 <= b < |rest[a]| && 0 <= c < |rest| && 0 <= d < |rest[c]|
      ensures rest[a][b] == rest[c][d] ==> a == c && b == d
    {
      assert rest[a][b] == shards[a + 1][b] && rest[c][d] == shards[c + 1][d];
    }
  }

  lemma HeadIsApart(cat: Catalogue, shards: seq<seq<Event>>, x: Event)
    requires ValidShards(cat, shards) && shards != [] && x in shards[0]
    ensures x !in All(shards[1..])
  {
    var rest := shards[1..];
    var i :| 0 <= i < |shards[0]| && shards[0][i] == x;
    forall a, b | 0 <= a < |rest| && 0 <= b < |rest[a]| ensures rest[a][b] != x {
      assert rest[a][b] == shards[a + 1][b];
    }
  }

  /** Scanning the shards one after the other meets every event once. */
  lemma {:induction false} FlattenIs(cat: Catalogue, shards: seq<seq<Event>>)
    requires ValidShards(cat, shards)
    ensures Apart(Flatten(shards)) && (forall x :: x in Flatten(shards) <==> x in All(shards))
    ensures forall x :: x in Flatten(shards) ==> Genuine(cat, x)
    ensures |Flatten(shards)| == Total(shards)
  {
    if shards != [] {
      var head, rest := shards[0], shards[1..];
      RestIsValid(cat, shards);
      FlattenIs(cat, rest);
      AllSplit(shards);
      EventSets.SortedHasNoRepeats(head);
      var es := Flatten(shards);
      forall i, j | 0 <= i < j < |es| ensures es[i] != es[j] {
        if i < |head| <= j {
          assert es[i] in head && es[j] in Flatten(rest);
          HeadIsApart(cat, shards, es[i]);
        }
      }
    }
  }

  lemma {:induction false} NewestOfIs(t: Event, shards: seq<seq<Event>>)
    requires forall s :: s in shards ==> EventSets.Sorted(s)
    ensures var n := NewestOf(t, shards);
            && (n == t || (n in Flatten(shards) && n.createdAt > t.createdAt))
            && t.createdAt <= n.createdAt
            && forall x :: x in Flatten(shards) ==> x.createdAt <= n.createdAt
    decreases |shards|
  {
    if shards != [] {
      var s, rest := shards[0], shards[1..];
      assert s in shards && forall q :: q in rest ==> q in shards;
      var t' := if s != [] && s[0].createdAt > t.createdAt then s[0] else t;
      NewestOfIs(t', rest);
      if s != [] { TopIsNewest(s); }
    }
  }

  /** The `count` newest events of `es`, in any order. */
  ghost predicate IsNewest(kept: seq<Event>, es: seq<Event>, count: nat) {
    && Apart(kept) && (forall x :: x in kept ==> x in es)
    && |kept| == (if count <= |es| then count else |es|)
    && forall x, y :: x in es && x !in kept && y in kept ==> x.createdAt <= y.createdAt
  }

  /** A distribution of the events over the shards. */
  ghost predicate Arranges(cat: Catalogue, shards: seq<seq<Event>>, es: seq<Event>) {
    |shards| == OLDEST_SHARDS && ValidShards(cat, shards) && forall x :: x in All(shards) <==> x in es
  }

  lemma SameMembersSameLength(a: seq<Event>, b: seq<Event>)
    requires Apart(a) && Apart(b) && forall x :: x in a <==> x in b
    ensures |a| == |b|
  {
    EventSets.DistinctCount(a);
    EventSets.DistinctCount(b);
    assert (set x | x in a) == (set x | x in b);
  }

  lemma ShardsAreSorted(cat: Catalogue, shards: seq<seq<Event>>)
    requires ValidShards(cat, shards)
    ensures forall s :: s in shards ==> EventSets.Sorted(s)
  {
    forall s | s in shards ensures EventSets.Sorted(s) {
      var a :| 0 <= a < |shards| && shards[a] == s;
    }
  }

  lemma FirstScanned(cat: Catalogue, shards: seq<seq<Event>>, count: nat) returns (full: seq<Event>)
    requires ValidShards(cat, shards) && 0 < count < |Flatten(shards)|
    ensures |full| == count && EventSets.Sorted(full)
    ensures forall x :: x in full <==> x in Flatten(shards)[..count]
    ensures NewestHeap([], shards, count) == [NewestOf(full[0], shards)] + full[1..]
  {
    hide ValidShards, Apart, NewestHeap, InsertAll, NewestOf, Flatten;
    FlattenIs(cat, shards);
    ShardsAreSorted(cat, shards);
    var all := Flatten(shards);
    assert [] + all == all && all == all[..count] + all[count..];
    assert Scannable(cat, [], all) by { assert EventSets.Sorted([]); }
    ScannablePrefix(cat, [], all[..count], all[count..]);
    InsertAllKeeps(cat, [], all[..count]);
    full := InsertAll([], all[..count]);
    NewestHeapIs(cat, [], shards, count);
  }

  lemma ToppedIsApart(full: seq<Event>, t: Event)
    requires EventSets.Sorted(full) && full != [] && (t == full[0] || t.createdAt > full[0].createdAt)
    ensures Apart([t] + full[1..]) && (t != full[0] ==> t !in full)
  {
    TopIsNewest(full);
    EventSets.SortedHasNoRepeats(full);
    assert forall i :: 0 <= i < |full[1..]| ==> full[1..][i] == full[i + 1];
    assert forall x :: x in full[1..] ==> x in full;
    assert t !in full[1..];
  }

  lemma ReverseApart(s: seq<Event>)
    requires Apart(s)
    ensures Apart(Reverse(s))
  {
  }

  /** With less room than events: the first `count` events scanned are kept, except that `t`, a
      newest of all, takes the place of the newest of them. */
  lemma GetNewestKeeps(cat: Catalogue, shards: seq<seq<Event>>, es: seq<Event>, count: nat)
    returns (full: seq<Event>, t: Event)
    requires Arranges(cat, shards, es) && Apart(es) && 0 < count < |es|
    ensures |Flatten(shards)| == |es| && |full| == count && EventSets.Sorted(full)
    ensures forall x :: x in full <==> x in Flatten(shards)[..count]
    ensures t in es && (forall x :: x in es ==> x.createdAt <= t.createdAt)
    ensures t == full[0] || (t !in full && t.createdAt > full[0].createdAt)
    ensures |GetNewest(shards, count)| == count && Apart(GetNewest(shards, count))
    ensures forall x :: x in GetNewest(shards, count) <==> x == t || x in full[1..]
  {
    hide ValidShards, Apart, NewestHeap, NewestOf, Flatten, EventSets.Sorted, All;
    FlattenIs(cat, shards);
    ShardsAreSorted(cat, shards);
    SameMembersSameLength(Flatten(shards), es);
    full := FirstScanned(cat, shards, count);
    t := NewestOf(full[0], shards);
    NewestOfIs(full[0], shards);
    ToppedIsApart(full, t);
    ReverseApart([t] + full[1..]);
    assert full[0] in full;
    assert forall x :: x in Flatten(shards)[..count] ==> x in Flatten(shards);
    assert forall x :: x in [t] + full[1..] <==> x == t || x in full[1..];
  }

  lemma ToppedIsSorted(full: seq<Event>, t: Event)
    requires EventSets.Sorted(full) && full != [] && (t == full[0] || t.createdAt > full[0].createdAt)
    ensures EventSets.Sorted([t] + full[1..])
  {
    var rest := full[1..];
    if rest != [] { assert Before(full[0], full[1]); }
    EventSets.SortedCons(t, rest);
  }

  /** For every count, the result is listed oldest first, against the comment in the code. */
  lemma GetNewestIsOldestFirst(cat: Catalogue, shards: seq<seq<Event>>, count: nat)
    requires ValidShards(cat, shards)
    ensures var r := GetNewest(shards, count); forall i, j :: 0 <= i < j < |r| ==> Before(r[j], r[i])
  {
    hide ValidShards, NewestHeap, NewestOf, Flatten, Total, Before;
    FlattenIs(cat, shards);
    if Total(shards) <= count {
      GetNewestWithRoomForAll(cat, shards, count);
    } else if count > 0 {
      ShardsAreSorted(cat, shards);
      var full := FirstScanned(cat, shards, count);
      NewestOfIs(full[0], shards);
      ToppedIsSorted(full, NewestOf(full[0], shards));
    }
  }

  /** An id whose shard is its eighth byte. */
  function SmallId(k: Byte): Id {
    seq(32, i => if i == 7 then k else 0)
  }

  lemma {:induction false} ZerosHash(n: nat)
    ensures ShardHash(seq(n, i => 0)) == 0
  {
    var z: Bytes := seq(n, i => 0);
    if n > 0 {
      var y: Bytes := seq(n - 1, i => 0);
      assert z[..n - 1] == y;
      ZerosHash(n - 1);
    }
  }

  lemma ShardOfSmallId(k: Byte)
    requires k < 64
    ensures ShardOf(SmallId(k)) == k as nat
  {
    var first := SmallId(k)[..8];
    var zeros: Bytes := seq(7, i => 0);
    assert first[..7] == zeros && first[7] == k;
    ZerosHash(7);
  }

  /** Asked for one event, or with at most one time below the newest, the right ones are kept. */
  lemma GetNewestIsRight(cat: Catalogue, shards: seq<seq<Event>>, es: seq<Event>, count: nat)
    requires EventSets.Sorted(es) && Arranges(cat, shards, es)
    requires count <= 1 || |es| <= count || es[1].createdAt == es[|es| - 1].createdAt
    ensures IsNewest(GetNewest(shards, count), es, count)
  {
    hide ValidShards, All, GetNewest, Flatten, Apart, Total;
    NoRepeatsApart(es);
    FlattenIs(cat, shards);
    SameMembersSameLength(Flatten(shards), es);
    var kept := GetNewest(shards, count);
    if |es| <= count {
      GetNewestWithRoomForAll(cat, shards, count);
      assert Apart(kept) by { ApartByPairs(kept); }
      SameMembersSameLength(kept, es);
    } else if count == 0 {
      AskedForNone(shards, es);
    } else {
      var full, t := GetNewestKeeps(cat, shards, es, count);
      assert forall x :: x in full[1..] ==> x in full;
      forall x, y | x in es && x !in kept && y in kept ensures x.createdAt <= y.createdAt {
        if y != t { AllButTheFirst(es, x, y, t); }
      }
    }
  }

  lemma NoRepeatsApart(s: seq<Event>)
    requires EventSets.Sorted(s)
    ensures Apart(s)
  {
    EventSets.SortedHasNoRepeats(s);
  }

  lemma ApartByPairs(s: seq<Event>)
    requires forall i, j :: 0 <= i < j < |s| ==> s[i] != s[j]
    ensures Apart(s)
  {
  }

  lemma AskedForNone(shards: seq<seq<Event>>, es: seq<Event>)
    ensures IsNewest(GetNewest(shards, 0), es, 0)
  {
  }

  lemma AllButTheFirst(es: seq<Event>, x: Event, y: Event, t: Event)
    requires EventSets.Sorted(es) && |es| > 1 && es[1].createdAt == es[|es| - 1].createdAt
    requires x in es && y in es && t in es && x != t && forall z :: z in es ==> z.createdAt <= t.createdAt
    ensures x.createdAt <= y.createdAt
  {
    var low := es[|es| - 1].createdAt;
    forall i | 0 <= i < |es| ensures i > 0 ==> es[i].createdAt == low
                             ensures es[i].createdAt >= low
    {
      if 1 < i { assert Before(es[1], es[i]); }
      if i < |es| - 1 { assert Before(es[i], es[|es| - 1]); }
    }
    var i :| 0 <= i < |es| && es[i] == x;
    var j :| 0 <= j < |es| && es[j] == t;
    if i == 0 { assert es[0] in es; }
  }

  /** The oldest event alone in the first shard, the second newest alone in the third, all
      others between them. */
  function WrongWay(es: seq<Event>): seq<seq<Event>>
    requires |es| >= 3
  {
    var n := |es|;
    [[es[n - 1]], [es[0]] + es[2..n - 1], [es[1]]] + seq(OLDEST_SHARDS - 3, i => [])
  }

  lemma {:induction false} EmptyFlatten(shards: seq<seq<Event>>)
    requires forall i :: 0 <= i < |shards| ==> shards[i] == []
    ensures Flatten(shards) == []
  {
    if shards != [] { EmptyFlatten(shards[1..]); }
  }

  lemma WrongWayFlat(es: seq<Event>)
    requires |es| >= 3
    ensures Flatten(WrongWay(es)) == [es[|es| - 1]] + ([es[0]] + es[2..|es| - 1]) + [es[1]]
  {
    var w, n := WrongWay(es), |es|;
    var empties: seq<seq<Event>> := seq(OLDEST_SHARDS - 3, i => []);
    EmptyFlatten(empties);
    var w1 := [[es[0]] + es[2..n - 1], [es[1]]] + empties;
    var w2 := [[es[1]]] + empties;
    assert w[1..] == w1 && w1[1..] == w2 && w2[1..] == empties;
    assert Flatten(w2) == [es[1]] + [];
    assert Flatten(w1) == ([es[0]] + es[2..n - 1]) + Flatten(w2);
  }

  lemma WrongWayIs(es: seq<Event>, a: nat, b: nat)
    requires |es| >= 3 && a < OLDEST_SHARDS && b < |WrongWay(es)[a]|
    ensures WrongPlace(|es|, a, b) < |es| && WrongWay(es)[a][b] == es[WrongPlace(|es|, a, b)] && a < 3
    ensures a != 1 ==> b == 0
    ensures a == 1 ==> WrongPlace(|es|, a, b) != 1 && WrongPlace(|es|, a, b) != |es| - 1
  {
  }

  lemma WrongWayArranges(cat: Catalogue, es: seq<Event>)
    requires EventSets.Sorted(es) && |es| >= 3 && forall x :: x in es ==> Genuine(cat, x)
    ensures Arranges(cat, WrongWay(es), es)
  {
    var w, n := WrongWay(es), |es|;
    forall x | x in es ensures x in All(w) {
      var i :| 0 <= i < n && es[i] == x;
      if i == n - 1 { assert w[0][0] == x; }
      else if i == 1 { assert w[2][0] == x; }
      else { assert w[1][if i == 0 then 0 else i - 1] == x; }
    }
    hide WrongWay, WrongPlace, Before;
    EventSets.SortedHasNoRepeats(es);
    forall a, b | 0 <= a < |w| && 0 <= b < |w[a]| ensures Genuine(cat, w[a][b]) && w[a][b] in es {
      WrongWayIs(es, a, b);
      assert es[WrongPlace(n, a, b)] in es;
    }
    forall a | 0 <= a < |w| ensures EventSets.Sorted(w[a]) {
      forall b, c | 0 <= b < c < |w[a]| ensures Before(w[a][b], w[a][c]) {
        WrongWayIs(es, a, b);
        WrongWayIs(es, a, c);
        PlacesGrow(n, b, c);
      }
    }
    forall a, b, c, d | 0 <= a < |w| && 0 <= b < |w[a]| && 0 <= c < |w| && 0 <= d < |w[c]|
      ensures w[a][b] == w[c][d] ==> a == c && b == d
    {
      WrongWayIs(es, a, b);
      WrongWayIs(es, c, d);
      if w[a][b] == w[c][d] { PlacesDiffer(n, a, b, c, d); }
    }
  }

  lemma PlacesGrow(n: nat, b: nat, c: nat)
    requires n >= 3 && b < c
    ensures WrongPlace(n, 1, b) < WrongPlace(n, 1, c)
  {
  }

  lemma PlacesDiffer(n: nat, a: nat, b: nat, c: nat, d: nat)
    requires n >= 3 && a < 3 && c < 3 && WrongPlace(n, a, b) == WrongPlace(n, c, d)
    requires (a != 1 ==> b == 0) && (c != 1 ==> d == 0)
    requires a == 1 ==> WrongPlace(n, a, b) != 1 && WrongPlace(n, a, b) != n - 1
    requires c == 1 ==> WrongPlace(n, c, d) != 1 && WrongPlace(n, c, d) != n - 1
    ensures a == c && b == d
  {
  }

  /** Where `WrongWay` took the event in shard `a` at place `b` from. */
  function WrongPlace(n: nat, a: nat, b: nat): nat
    requires n >= 3
  {
    if a == 0 then n - 1 else if a == 2 then 1 else if b == 0 then 0 else b + 1
  }

  /** Otherwise some distribution over the shards makes it keep an event older than one it
      leaves out. */
  lemma GetNewestGoesWrong(cat: Catalogue, es: seq<Event>, count: nat)
    requires EventSets.Sorted(es) && forall x :: x in es ==> Genuine(cat, x)
    requires 1 < count < |es| && es[1].createdAt != es[|es| - 1].createdAt
    ensures Arranges(cat, WrongWay(es), es) && !IsNewest(GetNewest(WrongWay(es), count), es, count)
  {
    hide ValidShards, All, GetNewest, WrongWay, Flatten, Apart;
    var n, w := |es|, WrongWay(es);
    NoRepeatsApart(es);
    EventSets.SortedHasNoRepeats(es);
    WrongWayArranges(cat, es);
    WrongWayFlat(es);
    var full, t := GetNewestKeeps(cat, w, es, count);
    var first := Flatten(w)[..count];
    assert first[0] == es[n - 1] && first[1] == es[0];
    assert es[n - 1] in first && es[0] in first;
    SecondIsLeftOut(es, first, count);
    assert Before(es[0], es[n - 1]) && Before(es[1], es[n - 1]);
    FirstIsTop(es, full);
    assert es[0] in es;
    assert t == es[0];
    assert es[n - 1] in full[1..] by { assert full == [full[0]] + full[1..]; }
    assert es[1] in es && es[1] !in full[1..] by { assert forall x :: x in full[1..] ==> x in full; }
  }

  lemma SecondIsLeftOut(es: seq<Event>, first: seq<Event>, count: nat)
    requires 1 < count < |es| && forall i, j :: 0 <= i < j < |es| ==> es[i] != es[j]
    requires first == ([es[|es| - 1]] + ([es[0]] + es[2..|es| - 1]) + [es[1]])[..count]
    ensures es[1] !in first
  {
    forall i | 0 <= i < |first| ensures first[i] != es[1] {
      if i >= 2 { assert first[i] == es[2..|es| - 1][i - 2] == es[i]; }
    }
  }

  lemma FirstIsTop(es: seq<Event>, full: seq<Event>)
    requires EventSets.Sorted(es) && es != [] && EventSets.Sorted(full) && es[0] in full && forall x :: x in full ==>
             x in es
    ensures full[0] == es[0]
    ensures forall x :: x in es ==> x.createdAt <= es[0].createdAt
  {
    TopIsNewest(es);
    var i :| 0 <= i < |full| && full[i] == es[0];
    if i > 0 {
      assert Before(full[0], es[0]) && full[0] in full;
      var j :| 0 <= j < |es| && es[j] == full[0];
      if j > 0 { BeforeTotal(es[0], es[j]); } else { BeforeIrreflexive(es[0]); }
    }
  }

  /** `get_newest` keeps the newest events, however they are distributed over the shards, if and
      only if it is asked for at most one, or has room for all, or all but the first are equally
      old. */
  lemma GetNewestIsRightIff(cat: Catalogue, es: seq<Event>, count: nat)
    requires EventSets.Sorted(es) && forall x :: x in es ==> Genuine(cat, x)
    ensures (forall shards :: Arranges(cat, shards, es) ==> IsNewest(GetNewest(shards, count), es, count)) <==>
            count <= 1 || |es| <= count || es[1].createdAt == es[|es| - 1].createdAt
  {
    hide IsNewest, Arranges, GetNewest;
    if count <= 1 || |es| <= count || es[1].createdAt == es[|es| - 1].createdAt {
      forall shards | Arranges(cat, shards, es) ensures IsNewest(GetNewest(shards, count), es, count) {
        GetNewestIsRight(cat, shards, es, count);
      }
    } else {
      GetNewestGoesWrong(cat, es, count);
    }
  }

  /** With less room it can keep the wrong events: asked for the two newest of three, it
      throws away the middle one and keeps the oldest, because the heap's top is the newest
      member and not the oldest. */
  lemma GetNewestCanKeepTheOldest(a: Event, b: Event, c: Event)
    requires a.createdAt < b.createdAt < c.createdAt
    ensures GetNewest([[a], [b], [c]], 2) == [a, c]
  {
    var s1 := EventSets.Insert([a], b);
    assert s1 == [b, a];
    assert ScanNewest([], [a], 2) == [a];
    assert ScanNewest([a], [b], 2) == [b, a];
    assert [b, a][1..] == [a];
    assert EventSets.Insert([a], c) == [c, a];
    assert ScanNewest([b, a], [c], 2) == [c, a];
    assert [[a], [b], [c]][1..] == [[b], [c]] && [[b], [c]][1..] == [[c]] && [[c]][1..] == [];
    assert NewestHeap([], [[a], [b], [c]], 2) == NewestHeap([a], [[b], [c]], 2);
    assert NewestHeap([a], [[b], [c]], 2) == NewestHeap([b, a], [[c]], 2);
    assert NewestHeap([b, a], [[c]], 2) == [c, a];
  }
}
