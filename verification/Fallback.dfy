/** Filters without a selective condition, answered by `get_newest`
    (src/subscription.rs:414-418; src/store/index.rs:679-718). */
module Fallback {
  import opened Events
  import opened Filters
  import opened IndexKeys
  import opened EventIndexes
  import opened Planner
  import opened Limits
  import EventSets
  import Oldest

  /** The filter `{}` with a limit. */
  function Everything(n: nat): Filter {
    Filter(None, None, None, map[], None, None, Some(n), None, None)
  }

  lemma SiftEverything(cat: Catalogue, n: nat, s: seq<Event>)
    requires Oldest.Apart(s) && AllGenuine(cat, s)
    ensures Sift(Everything(n), s) == s
  {
    hide Sift;
    var f := Everything(n);
    assert forall i :: 0 <= i < |s| ==> PostMatches(f, s[i]);
    SiftInterval(cat, f, s, 0, |s|);
    assert s[0..|s|] == s;
  }

  /** A filter without conditions is answered with what `get_newest` keeps, oldest first. */
  lemma EverythingIsAnswered(cat: Catalogue, byId: map<Id, Event>, b: Buckets, n: nat, letter: char)
    requires OneEventPerId(cat, byId) && Filed(byId, b)
    ensures Answer(byId, b, Everything(n), letter) == Oldest.GetNewest(Shards(b), n)
    ensures var r := Answer(byId, b, Everything(n), letter); forall i, j :: 0 <= i < j < |r| ==> Before(r[j], r[i])
  {
    hide Before, Oldest.ValidShards, Filed, OneEventPerId, Sift;
    ShardsHoldEverything(cat, byId, b, Shards(b));
    var r := Oldest.GetNewest(Shards(b), n);
    assert |r| <= n && Oldest.Apart(r) && AllGenuine(cat, r) by { KeptAreStored(cat, Shards(b), n); }
    Oldest.GetNewestIsOldestFirst(cat, Shards(b), n);
    SiftEverything(cat, n, r);
    assert !UsesOther(Everything(n));
  }

  lemma KeptAreStored(cat: Catalogue, shards: seq<seq<Event>>, n: nat)
    requires Oldest.ValidShards(cat, shards)
    ensures var r := Oldest.GetNewest(shards, n);
            |r| <= n && Oldest.Apart(r) && AllGenuine(cat, r) && forall x :: x in r ==> x in Oldest.All(shards)
  {
    hide Oldest.ValidShards, Oldest.NewestHeap, Oldest.Total, Oldest.NewestOf;
    var r := Oldest.GetNewest(shards, n);
    Oldest.FlattenIs(cat, shards);
    Oldest.GetNewestIsOldestFirst(cat, shards, n);
    forall i, j | 0 <= i < j < |r| ensures r[i] != r[j] { BeforeTotal(r[j], r[i]); }
    if Oldest.Total(shards) <= n {
      Oldest.GetNewestWithRoomForAll(cat, shards, n);
      Oldest.SameMembersSameLength(r, Oldest.Flatten(shards));
    } else if n > 0 {
      Oldest.ShardsAreSorted(cat, shards);
      var full := Oldest.FirstScanned(cat, shards, n);
      Oldest.NewestOfIs(full[0], shards);
      assert forall x :: x in full ==> x in Oldest.Flatten(shards);
      assert full[0] in full && forall x :: x in full[1..] ==> x in full;
    }
  }

  /** Three stored events whose ids put them into the first three shards, the oldest first: asked for
      the two newest, `{}` is answered with the oldest and the newest. */
  lemma TwoOfThreeGoWrong(cat: Catalogue, b: Buckets, x: Event, y: Event, z: Event, letter: char)
    requires x.id == Oldest.SmallId(0) && y.id == Oldest.SmallId(1) && z.id == Oldest.SmallId(2)
    requires x.createdAt < y.createdAt < z.createdAt
    requires var byId := map[x.id := x, y.id := y, z.id := z]; OneEventPerId(cat, byId) && Filed(byId, b)
    ensures Answer(map[x.id := x, y.id := y, z.id := z], b, Everything(2), letter) == [x, z]
  {
    hide Before, Oldest.ValidShards, Answer, Oldest.GetNewest, Filed, OneEventPerId, Oldest.Flatten, Oldest.All;
    var byId := map[x.id := x, y.id := y, z.id := z];
    var shards := Shards(b);
    EverythingIsAnswered(cat, byId, b, 2, letter);
    ShardsHoldEverything(cat, byId, b, shards);
    forall i | 0 <= i < |shards|
      ensures shards[i] == if i == 0 then [x] else if i == 1 then [y] else if i == 2 then [z] else []
    {
      OneShard(byId, b, x, y, z, i);
    }
    FirstTwoScanned(shards, x, y, z);
    forall e ensures e in Oldest.All(shards) <==> e in [z, y, x] { ThreeStored(byId, x, y, z, e); }
    TwoOfThreeShards(cat, shards, x, y, z);
  }

  lemma ThreeStored(byId: map<Id, Event>, x: Event, y: Event, z: Event, e: Event)
    requires x.id == Oldest.SmallId(0) && y.id == Oldest.SmallId(1) && z.id == Oldest.SmallId(2)
    requires byId == map[x.id := x, y.id := y, z.id := z]
    ensures Stored(byId, e) <==> e in [z, y, x]
  {
    SmallIdsDiffer();
  }

  lemma TwoOfThreeShards(cat: Catalogue, shards: seq<seq<Event>>, x: Event, y: Event, z: Event)
    requires Oldest.Arranges(cat, shards, [z, y, x]) && Oldest.Flatten(shards) == [x, y, z]
    requires x.createdAt < y.createdAt < z.createdAt
    ensures Oldest.GetNewest(shards, 2) == [x, z]
  {
    hide Oldest.ValidShards, Oldest.GetNewest, Oldest.Flatten, Oldest.All;
    var es := [z, y, x];
    var full, t := Oldest.GetNewestKeeps(cat, shards, es, 2);
    assert t == z by { assert z in es; }
    assert [x, y, z][..2] == [x, y];
    TwoSorted(full, x, y);
    var r := Oldest.GetNewest(shards, 2);
    Oldest.GetNewestIsOldestFirst(cat, shards, 2);
    assert z in r && x in r by { assert x in full[1..]; }
    LaterFirst(z, x);
    assert r[0] in r && r[1] in r && Before(r[1], r[0]);
    assert forall e :: e in full[1..] ==> e == x;
  }

  lemma SmallIdsDiffer()
    ensures Oldest.SmallId(0) != Oldest.SmallId(1) && Oldest.SmallId(1) != Oldest.SmallId(2)
    ensures Oldest.SmallId(0) != Oldest.SmallId(2)
  {
    assert Oldest.SmallId(0)[7] == 0 && Oldest.SmallId(1)[7] == 1 && Oldest.SmallId(2)[7] == 2;
  }

  lemma LaterFirst(z: Event, x: Event)
    requires x.createdAt < z.createdAt
    ensures Before(z, x) && !Before(x, z)
  {
  }

  lemma TwoSorted(full: seq<Event>, x: Event, y: Event)
    requires EventSets.Sorted(full) && |full| == 2 && x.createdAt < y.createdAt
    requires forall e :: e in full <==> e == x || e == y
    ensures full == [y, x]
  {
    assert full[0] in full && full[1] in full && x in full && y in full;
    assert Before(full[0], full[1]);
  }

  lemma OneShard(byId: map<Id, Event>, b: Buckets, x: Event, y: Event, z: Event, i: nat)
    requires x.id == Oldest.SmallId(0) && y.id == Oldest.SmallId(1) && z.id == Oldest.SmallId(2)
    requires byId == map[x.id := x, y.id := y, z.id := z] && Filed(byId, b) && i < Oldest.OLDEST_SHARDS
    ensures Shards(b)[i] == if i == 0 then [x] else if i == 1 then [y] else if i == 2 then [z] else []
  {
    hide Before, KeysOf;
    SmallIdsDiffer();
    Oldest.ShardOfSmallId(0);
    Oldest.ShardOfSmallId(1);
    Oldest.ShardOfSmallId(2);
    var s := Bucket(b, ByOldest(i));
    forall e ensures e in s <==> Stored(byId, e) && i == Oldest.ShardOf(e.id) { KeysAreBelonging(e, ByOldest(i)); }
    var wanted := if i == 0 then [x] else if i == 1 then [y] else if i == 2 then [z] else [];
    EventSets.SortedIsUnique(s, wanted);
  }

  lemma FirstTwoScanned(shards: seq<seq<Event>>, x: Event, y: Event, z: Event)
    requires |shards| == Oldest.OLDEST_SHARDS && shards[0] == [x] && shards[1] == [y] && shards[2] == [z]
    requires forall i :: 3 <= i < |shards| ==> shards[i] == []
    ensures Oldest.Flatten(shards) == [x, y, z]
  {
    var r1, r2, r3 := shards[1..], shards[2..], shards[3..];
    assert r1[1..] == r2 && r2[1..] == r3;
    Oldest.EmptyFlatten(r3);
    assert Oldest.Flatten(r2) == [z] + [];
    assert Oldest.Flatten(r1) == [y] + Oldest.Flatten(r2);
  }
}
