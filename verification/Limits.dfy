/** What a limit does to a query (src/subscription.rs:285-290, 331-410, 463-465;
    src/store/index.rs:755-877): every value of the leading condition is fetched up to the limit,
    newest first, in the order of the values; the other conditions are checked on what was
    fetched; and the result is cut to the limit. */
module Limits {
  import opened Events
  import opened Filters
  import opened IndexKeys
  import opened EventIndexes
  import opened Planner
  import EventSets
  import Oldest

  // ---------------------------------------------------------------- sifting

  function Joined(ls: seq<seq<Event>>): seq<Event> {
    if ls == [] then [] else Joined(ls[..|ls| - 1]) + ls[|ls| - 1]
  }

  function TakeEach(ls: seq<seq<Event>>, n: nat): seq<seq<Event>> {
    seq(|ls|, i requires 0 <= i < |ls| => Take(ls[i], n))
  }

  lemma SiftStep(f: Filter, t: seq<Event>, e: Event)
    ensures Sift(f, t + [e]) ==
            if PostMatches(f, e) && !HasId(Sift(f, t), e.id) then Sift(f, t) + [e] else Sift(f, t)
    ensures Sift(f, []) == []
  {
    hide PostMatches;
    assert (t + [e])[..|t|] == t;
  }

  lemma {:induction false} SiftPrefix(f: Filter, a: seq<Event>, b: seq<Event>)
    ensures Sift(f, a) <= Sift(f, a + b)
  {
    hide PostMatches, Sift, HasId;
    if b == [] {
      assert a + b == a;
    } else {
      var c, e := b[..|b| - 1], b[|b| - 1];
      assert a + b == (a + c) + [e];
      SiftPrefix(f, a, c);
      SiftStep(f, a + c, e);
    }
  }

  /** What is sifted out of a continuation depends only on what was sifted before. */
  lemma {:induction false} SiftSame(f: Filter, p: seq<Event>, q: seq<Event>, s: seq<Event>)
    requires Sift(f, p) == Sift(f, q)
    ensures Sift(f, p + s) == Sift(f, q + s)
  {
    hide PostMatches, Sift, HasId;
    if s == [] {
      assert p + s == p && q + s == q;
    } else {
      var c, e := s[..|s| - 1], s[|s| - 1];
      assert p + s == (p + c) + [e] && q + s == (q + c) + [e];
      SiftSame(f, p, q, c);
      SiftStep(f, p + c, e);
      SiftStep(f, q + c, e);
    }
  }

  lemma {:induction false} SiftNothing(f: Filter, a: seq<Event>, b: seq<Event>)
    requires forall i :: 0 <= i < |b| ==> !PostMatches(f, b[i])
    ensures Sift(f, a + b) == Sift(f, a)
  {
    hide PostMatches, Sift, HasId;
    if b == [] {
      assert a + b == a;
    } else {
      var c, e := b[..|b| - 1], b[|b| - 1];
      assert a + b == (a + c) + [e];
      SiftNothing(f, a, c);
      SiftStep(f, a + c, e);
    }
  }

  ghost predicate AllGenuine(cat: Catalogue, s: seq<Event>) {
    forall e :: e in s ==> Genuine(cat, e)
  }

  /** If a whole list passes, at least as many events are sifted out. */
  lemma SiftCounts(cat: Catalogue, f: Filter, a: seq<Event>, s: seq<Event>)
    requires AllGenuine(cat, a + s) && Oldest.Apart(s) && forall i :: 0 <= i < |s| ==> PostMatches(f, s[i])
    ensures |Sift(f, a + s)| >= |s|
  {
    hide PostMatches, Sift;
    SiftAre(cat, f, a + s);
    var got := Sift(f, a + s);
    forall e | e in s ensures e in got {
      var i :| 0 <= i < |s| && s[i] == e;
      assert e in a + s;
    }
    var inS, inGot := set e | e in s, set e | e in got;
    EventSets.DistinctCount(s);
    forall i, j | 0 <= i < j < |got| ensures got[i] != got[j] { assert got[i].id != got[j].id; }
    EventSets.DistinctCount(got);
    Oldest.SubsetCount(inS, inGot);
  }

  /** In a fetched list the events that pass come first. */
  ghost predicate PassFirst(f: Filter, l: seq<Event>) {
    forall j, k :: 0 <= j < k < |l| && PostMatches(f, l[k]) ==> PostMatches(f, l[j])
  }

  ghost predicate Fetchable(cat: Catalogue, f: Filter, ls: seq<seq<Event>>) {
    forall i :: 0 <= i < |ls| ==> PassFirst(f, ls[i]) && Oldest.Apart(ls[i]) && AllGenuine(cat, ls[i])
  }

  lemma {:induction false} JoinedGenuine(cat: Catalogue, f: Filter, ls: seq<seq<Event>>, n: nat)
    requires Fetchable(cat, f, ls)
    ensures AllGenuine(cat, Joined(ls)) && AllGenuine(cat, Joined(TakeEach(ls, n)))
  {
    if ls != [] {
      var k := |ls| - 1;
      JoinedGenuine(cat, f, ls[..k], n);
      assert TakeEach(ls, n)[..k] == TakeEach(ls[..k], n);
      assert AllGenuine(cat, ls[k]);
      assert forall e :: e in Take(ls[k], n) ==> e in ls[k];
    }
  }

  /** One more list, after lists that gave the same. */
  lemma OneMoreList(cat: Catalogue, f: Filter, p: seq<Event>, l: seq<Event>, n: nat)
    requires AllGenuine(cat, p) && PassFirst(f, l) && Oldest.Apart(l) && AllGenuine(cat, l)
    ensures Take(Sift(f, p + Take(l, n)), n) == Take(Sift(f, p + l), n)
  {
    hide PostMatches, Sift;
    if |l| > n {
      var first, rest := l[..n], l[n..];
      assert p + l == (p + first) + rest;
      SiftPrefix(f, p + first, rest);
      if forall i :: 0 <= i < n ==> PostMatches(f, first[i]) {
        assert AllGenuine(cat, p + first);
        SiftCounts(cat, f, p, first);
      } else {
        var j :| 0 <= j < n && !PostMatches(f, first[j]);
        forall i | 0 <= i < |rest| ensures !PostMatches(f, rest[i]) {
          assert rest[i] == l[n + i] && first[j] == l[j];
        }
        SiftNothing(f, p + first, rest);
      }
    }
  }

  /** Cutting every list to the limit before sifting makes no difference to the first events. */
  lemma {:induction false} LimitOnLists(cat: Catalogue, f: Filter, ls: seq<seq<Event>>, n: nat)
    requires Fetchable(cat, f, ls)
    ensures Take(Sift(f, Joined(TakeEach(ls, n))), n) == Take(Sift(f, Joined(ls)), n)
  {
    hide PostMatches, Sift, PassFirst;
    if ls != [] {
      var k := |ls| - 1;
      var l := ls[k];
      var p, q := Joined(TakeEach(ls[..k], n)), Joined(ls[..k]);
      assert TakeEach(ls, n)[..k] == TakeEach(ls[..k], n);
      LimitOnLists(cat, f, ls[..k], n);
      JoinedGenuine(cat, f, ls[..k], n);
      SiftPrefix(f, p, Take(l, n));
      SiftPrefix(f, q, l);
      assert PassFirst(f, l) && Oldest.Apart(l) && AllGenuine(cat, l);
      if |Sift(f, p)| < n {
        assert Sift(f, p) == Sift(f, q);
        SiftSame(f, p, q, l);
        OneMoreList(cat, f, p, l, n);
      }
    }
  }

  // ---------------------------------------------------------------- the lists of a plan

  function ListsOf(b: Buckets, plan: Plan): seq<seq<Event>>
    requires plan.ByKeys? || plan.ByAuthorsSince?
  {
    match plan
    case ByKeys(keys) => seq(|keys|, i requires 0 <= i < |keys| => Bucket(b, keys[i]))
    case ByAuthorsSince(authors, since) =>
      seq(|authors|, i requires 0 <= i < |authors| => TakeSince(Bucket(b, ByPubkey(Fold(authors[i]))), since))
  }

  lemma {:induction false} KeysJoined(b: Buckets, keys: seq<BucketKey>, n: nat)
    ensures FetchKeys(b, keys, n) == Joined(TakeEach(ListsOf(b, ByKeys(keys)), n))
  {
    if keys != [] {
      var k := |keys| - 1;
      KeysJoined(b, keys[..k], n);
      assert TakeEach(ListsOf(b, ByKeys(keys)), n)[..k] == TakeEach(ListsOf(b, ByKeys(keys[..k])), n);
    }
  }

  lemma {:induction false} AuthorsJoined(b: Buckets, authors: seq<Id>, since: nat, n: nat)
    ensures FetchAuthors(b, authors, since, n) == Joined(TakeEach(ListsOf(b, ByAuthorsSince(authors, since)), n))
  {
    hide Fold, TakeSince;
    if authors != [] {
      var k := |authors| - 1;
      AuthorsJoined(b, authors[..k], since, n);
      assert TakeEach(ListsOf(b, ByAuthorsSince(authors, since)), n)[..k] ==
             TakeEach(ListsOf(b, ByAuthorsSince(authors[..k], since)), n);
    }
  }

  lemma CandidatesJoined(byId: map<Id, Event>, b: Buckets, f: Filter, plan: Plan)
    requires plan.ByKeys? || plan.ByAuthorsSince?
    ensures Candidates(byId, b, f, plan) == Joined(TakeEach(ListsOf(b, plan), FetchLimit(f)))
  {
    if plan.ByKeys? { KeysJoined(b, plan.keys, FetchLimit(f)); }
    else { AuthorsJoined(b, plan.authors, plan.since, FetchLimit(f)); }
  }

  lemma {:induction false} SiftIgnoresLimit(f: Filter, limit: Option<nat>, cands: seq<Event>)
    ensures Sift(f.(limit := limit), cands) == Sift(f, cands)
  {
    if cands != [] {
      SiftIgnoresLimit(f, limit, cands[..|cands| - 1]);
      PostIgnoresLimit(f, limit, cands[|cands| - 1]);
    }
  }

  lemma PostIgnoresLimit(f: Filter, limit: Option<nat>, e: Event)
    ensures PostMatches(f.(limit := limit), e) <==> PostMatches(f, e)
  {
    var g := f.(limit := limit);
    assert forall l :: Skips(g, l) <==> Skips(f, l) by { assert UsesOther(g) <==> UsesOther(f); }
  }

  lemma PlanIgnoresLimit(f: Filter, limit: Option<nat>, letter: char)
    ensures PlanFor(f.(limit := limit), letter) == PlanFor(f, letter)
  {
    assert UsesOther(f.(limit := limit)) <==> UsesOther(f);
  }

  lemma ListsFit(cat: Catalogue, byId: map<Id, Event>, b: Buckets, plan: Plan, n: nat)
    requires OneEventPerId(cat, byId) && Filed(byId, b) && |byId| <= n && (plan.ByKeys? || plan.ByAuthorsSince?)
    ensures TakeEach(ListsOf(b, plan), n) == ListsOf(b, plan)
  {
    hide Fold, TakeSince;
    var ls := ListsOf(b, plan);
    forall i | 0 <= i < |ls| ensures Take(ls[i], n) == ls[i] {
      if plan.ByKeys? {
        BucketFits(cat, byId, b, plan.keys[i]);
      } else {
        var k := ByPubkey(Fold(plan.authors[i]));
        BucketFits(cat, byId, b, k);
        TakeSinceIsPrefix(Bucket(b, k), plan.since);
      }
    }
    assert TakeEach(ls, n) == ls;
  }

  /** Where the events that pass come first in every list fetched, a limit cuts the unlimited
      answer short and does nothing else. */
  lemma LimitTakesAPrefix(cat: Catalogue, byId: map<Id, Event>, b: Buckets, f: Filter, letter: char, n: nat)
    requires OneEventPerId(cat, byId) && Filed(byId, b) && |byId| <= USIZE_MAX && f.limit.None?
    requires var plan := PlanFor(f, letter);
             (plan.ByKeys? || plan.ByAuthorsSince?) && Fetchable(cat, f, ListsOf(b, plan))
    ensures Answer(byId, b, f, letter) == Sift(f, Joined(ListsOf(b, PlanFor(f, letter))))
    ensures Answer(byId, b, f.(limit := Some(n)), letter) == Take(Answer(byId, b, f, letter), n)
  {
    hide PlanFor, Sift, Candidates, ListsOf, Fetchable, Joined, TakeEach, Filed, OneEventPerId;
    var plan, g := PlanFor(f, letter), f.(limit := Some(n));
    PlanIgnoresLimit(f, Some(n), letter);
    CandidatesJoined(byId, b, f, plan);
    CandidatesJoined(byId, b, g, plan);
    ListsFit(cat, byId, b, plan, USIZE_MAX);
    SiftIgnoresLimit(f, Some(n), Joined(TakeEach(ListsOf(b, plan), n)));
    LimitOnLists(cat, f, ListsOf(b, plan), n);
  }

  // ---------------------------------------------------------------- when a limit does no harm

  /** What the limit takes from list `i` is not missed: the limit was reached before it, or nothing
      is taken, or nothing of it would pass, or the limit is reached without it. */
  ghost predicate Spared(f: Filter, ls: seq<seq<Event>>, n: nat, i: nat)
    requires i < |ls|
  {
    var d, l := Joined(ls[..i]), ls[i];
    || |Sift(f, d)| >= n || |l| <= n
    || (forall j :: n <= j < |l| ==> !PostMatches(f, l[j]))
    || |Sift(f, d + l[..n])| >= n
  }

  ghost predicate LimitSpares(f: Filter, ls: seq<seq<Event>>, n: nat) {
    forall i :: 0 <= i < |ls| ==> Spared(f, ls, n, i)
  }

  ghost predicate Disjoint(ls: seq<seq<Event>>) {
    forall i, j, x :: 0 <= i < j < |ls| && x in ls[i] ==> x !in ls[j]
  }

  ghost predicate Listed(cat: Catalogue, ls: seq<seq<Event>>) {
    forall i :: 0 <= i < |ls| ==> Oldest.Apart(ls[i]) && AllGenuine(cat, ls[i])
  }

  lemma {:induction false} JoinedHas(ls: seq<seq<Event>>, x: Event)
    ensures x in Joined(ls) <==> exists i :: 0 <= i < |ls| && x in ls[i]
  {
    if ls != [] {
      var k := |ls| - 1;
      JoinedHas(ls[..k], x);
      if i :| 0 <= i < k && x in ls[..k][i] { assert x in ls[i]; }
      if i :| 0 <= i < |ls| && x in ls[i] { if i < k { assert x in ls[..k][i]; } }
    }
  }

  lemma {:induction false} JoinedListed(cat: Catalogue, ls: seq<seq<Event>>, n: nat)
    requires Listed(cat, ls)
    ensures AllGenuine(cat, Joined(ls)) && AllGenuine(cat, Joined(TakeEach(ls, n)))
    ensures forall x :: x in Joined(TakeEach(ls, n)) ==> x in Joined(ls)
  {
    if ls != [] {
      var k := |ls| - 1;
      JoinedListed(cat, ls[..k], n);
      assert TakeEach(ls, n)[..k] == TakeEach(ls[..k], n);
      assert AllGenuine(cat, ls[k]);
      assert forall e :: e in Take(ls[k], n) ==> e in ls[k];
    }
  }

  /** What is sifted after a list comes from the continuation. */
  lemma {:induction false} SiftTail(f: Filter, a: seq<Event>, b: seq<Event>)
    ensures Sift(f, a) <= Sift(f, a + b)
    ensures forall i :: |Sift(f, a)| <= i < |Sift(f, a + b)| ==> Sift(f, a + b)[i] in b
  {
    hide PostMatches, Sift, HasId;
    if b == [] {
      assert a + b == a;
    } else {
      var c, e := b[..|b| - 1], b[|b| - 1];
      assert a + b == (a + c) + [e];
      SiftTail(f, a, c);
      SiftStep(f, a + c, e);
      assert forall x :: x in c ==> x in b;
      assert e in b;
    }
  }

  lemma SiftFewer(cat: Catalogue, f: Filter, p: seq<Event>, q: seq<Event>)
    requires AllGenuine(cat, q) && forall x :: x in p ==> x in q
    ensures |Sift(f, p)| <= |Sift(f, q)|
  {
    hide PostMatches, Sift;
    SiftAre(cat, f, p);
    SiftAre(cat, f, q);
    var a, b := Sift(f, p), Sift(f, q);
    forall i, j | 0 <= i < j < |a| ensures a[i] != a[j] { assert a[i].id != a[j].id; }
    forall i, j | 0 <= i < j < |b| ensures b[i] != b[j] { assert b[i].id != b[j].id; }
    EventSets.DistinctCount(a);
    EventSets.DistinctCount(b);
    Oldest.SubsetCount(set x | x in a, set x | x in b);
  }

  lemma SparedStep(f: Filter, p: seq<Event>, q: seq<Event>, l: seq<Event>, n: nat)
    requires Take(Sift(f, p), n) == Take(Sift(f, q), n)
    requires || |Sift(f, q)| >= n || |l| <= n || (forall j :: n <= j < |l| ==> !PostMatches(f, l[j]))
             || |Sift(f, q + l[..n])| >= n
    ensures Take(Sift(f, p + Take(l, n)), n) == Take(Sift(f, q + l), n)
  {
    hide PostMatches, Sift;
    SiftPrefix(f, p, Take(l, n));
    SiftPrefix(f, q, l);
    if |Sift(f, p)| < n {
      assert Sift(f, p) == Sift(f, q);
      SiftSame(f, p, q, Take(l, n));
      if |l| > n {
        var first, rest := l[..n], l[n..];
        assert q + l == (q + first) + rest;
        SiftPrefix(f, q + first, rest);
        if forall j :: n <= j < |l| ==> !PostMatches(f, l[j]) { SiftNothing(f, q + first, rest); }
      }
    }
  }

  lemma ContinuationsDiffer(a: seq<Event>, b: seq<Event>, c: seq<Event>, d: seq<Event>, n: nat)
    requires a <= c && b <= d && |a| <= |b| && Take(a, n) != Take(b, n)
    requires |a| < |c| && |a| < |b| ==> c[|a|] != b[|a|]
    ensures Take(c, n) != Take(d, n)
  {
    var k := |a|;
    if i :| 0 <= i < k && i < n && a[i] != b[i] {
      assert Take(c, n)[i] == a[i] && Take(d, n)[i] == b[i];
    } else {
      assert forall i :: 0 <= i < k && i < n ==> a[i] == b[i];
      assert k < n && k < |b|;
      if k < |c| {
        assert Take(c, n)[k] == c[k] && Take(d, n)[k] == b[k];
      } else {
        assert |Take(c, n)| == k < |Take(d, n)|;
      }
    }
  }

  /** Nothing that a limit took from earlier lists comes back with a list that shares no event
      with them. */
  lemma LossStays(f: Filter, p: seq<Event>, q: seq<Event>, l: seq<Event>, n: nat)
    requires |Sift(f, p)| <= |Sift(f, q)| && (forall x :: x in Sift(f, q) ==> x !in l)
    ensures Take(Sift(f, p), n) != Take(Sift(f, q), n) ==>
              Take(Sift(f, p + Take(l, n)), n) != Take(Sift(f, q + l), n)
  {
    hide PostMatches, Sift;
    var t := Take(l, n);
    var a, b, c, d := Sift(f, p), Sift(f, q), Sift(f, p + t), Sift(f, q + l);
    SiftTail(f, p, t);
    SiftTail(f, q, l);
    if Take(a, n) != Take(b, n) {
      if |a| < |c| && |a| < |b| {
        assert c[|a|] in t && b[|a|] in b;
        assert forall x :: x in t ==> x in l;
      }
      ContinuationsDiffer(a, b, c, d, n);
    }
  }

  lemma MissedIfNotSpared(cat: Catalogue, f: Filter, q: seq<Event>, l: seq<Event>, n: nat, j: nat)
    requires AllGenuine(cat, q + l) && Oldest.Apart(l) && (forall x :: x in l ==> x !in q)
    requires n <= j < |l| && PostMatches(f, l[j]) && |Sift(f, q + l[..n])| < n
    ensures Take(Sift(f, q + l[..n]), n) != Take(Sift(f, q + l), n)
  {
    hide PostMatches, Sift;
    var first := l[..n];
    assert q + l == (q + first) + l[n..];
    SiftPrefix(f, q + first, l[n..]);
    assert AllGenuine(cat, q + first) by { assert forall x :: x in q + first ==> x in q + l; }
    SiftAre(cat, f, q + l);
    SiftAre(cat, f, q + first);
    assert l[j] in q + l && l[j] !in q + first;
  }

  /** For every filter and every list of lists: if every list is spared, cutting the lists to the limit
      first makes no difference; and if no event is in two lists, only then. */
  lemma {:induction false} LimitedListsIff(cat: Catalogue, f: Filter, ls: seq<seq<Event>>, n: nat)
    requires Listed(cat, ls)
    ensures LimitSpares(f, ls, n) ==> Take(Sift(f, Joined(TakeEach(ls, n))), n) == Take(Sift(f, Joined(ls)), n)
    ensures Disjoint(ls) && Take(Sift(f, Joined(TakeEach(ls, n))), n) == Take(Sift(f, Joined(ls)), n) ==>
              LimitSpares(f, ls, n)
  {
    hide PostMatches, Sift, Spared;
    if ls != [] {
      var k := |ls| - 1;
      var l, p, q := ls[k], Joined(TakeEach(ls[..k], n)), Joined(ls[..k]);
      assert TakeEach(ls, n)[..k] == TakeEach(ls[..k], n);
      LimitedListsIff(cat, f, ls[..k], n);
      JoinedListed(cat, ls[..k], n);
      SpareSlices(f, ls, n);
      SparedMeans(f, ls, n, k);
      if LimitSpares(f, ls, n) { SparedStep(f, p, q, l, n); }
      if Disjoint(ls) && Take(Sift(f, p + Take(l, n)), n) == Take(Sift(f, q + l), n) {
        assert Oldest.Apart(l) && AllGenuine(cat, l);
        forall x | x in l ensures x !in q {
          forall i | 0 <= i < k ensures x !in ls[..k][i] { assert ls[..k][i] == ls[i]; }
          JoinedHas(ls[..k], x);
        }
        SiftAre(cat, f, q);
        SiftFewer(cat, f, p, q);
        LossStays(f, p, q, l, n);
        LastIsSpared(cat, f, p, q, l, n);
      }
    }
  }

  lemma LastIsSpared(cat: Catalogue, f: Filter, p: seq<Event>, q: seq<Event>, l: seq<Event>, n: nat)
    requires AllGenuine(cat, q) && AllGenuine(cat, l) && Oldest.Apart(l) && (forall x :: x in l ==> x !in q)
    requires Take(Sift(f, p), n) == Take(Sift(f, q), n)
    requires Take(Sift(f, p + Take(l, n)), n) == Take(Sift(f, q + l), n)
    ensures || |Sift(f, q)| >= n || |l| <= n || (forall j :: n <= j < |l| ==> !PostMatches(f, l[j]))
            || |Sift(f, q + l[..n])| >= n
  {
    hide PostMatches, Sift;
    if |Sift(f, q)| < n && |l| > n && |Sift(f, q + l[..n])| < n {
      assert Sift(f, p) == Sift(f, q);
      SiftSame(f, p, q, l[..n]);
      forall j | n <= j < |l| ensures !PostMatches(f, l[j]) {
        if PostMatches(f, l[j]) { MissedIfNotSpared(cat, f, q, l, n, j); }
      }
    }
  }

  lemma SpareSlices(f: Filter, ls: seq<seq<Event>>, n: nat)
    requires ls != []
    ensures LimitSpares(f, ls, n) <==> LimitSpares(f, ls[..|ls| - 1], n) && Spared(f, ls, n, |ls| - 1)
  {
    hide PostMatches, Sift;
    var k := |ls| - 1;
    forall i | 0 <= i < k ensures Spared(f, ls[..k], n, i) <==> Spared(f, ls, n, i) {
      assert ls[..k][..i] == ls[..i] && ls[..k][i] == ls[i];
    }
  }

  lemma SparedMeans(f: Filter, ls: seq<seq<Event>>, n: nat, i: nat)
    requires i < |ls|
    ensures var d, l := Joined(ls[..i]), ls[i];
            Spared(f, ls, n, i) <==>
              || |Sift(f, d)| >= n || |l| <= n
              || (forall j :: n <= j < |l| ==> !PostMatches(f, l[j]))
              || |Sift(f, d + l[..n])| >= n
  {
  }

  /** The lists a plan fetches hold each event once. */
  lemma ListsAreListed(cat: Catalogue, byId: map<Id, Event>, b: Buckets, plan: Plan)
    requires OneEventPerId(cat, byId) && Filed(byId, b) && (plan.ByKeys? || plan.ByAuthorsSince?)
    ensures Listed(cat, ListsOf(b, plan))
    ensures forall i :: 0 <= i < |ListsOf(b, plan)| ==> EventSets.Sorted(ListsOf(b, plan)[i])
  {
    hide Fold, TakeSince, Before;
    FiledIsTidy(cat, byId, b);
    var ls := ListsOf(b, plan);
    forall i | 0 <= i < |ls| ensures EventSets.Sorted(ls[i]) && Oldest.Apart(ls[i]) && AllGenuine(cat, ls[i]) {
      if plan.ByAuthorsSince? {
        var s := Bucket(b, ByPubkey(Fold(plan.authors[i])));
        TakeSinceAre(s, plan.since);
      }
      EventSets.SortedHasNoRepeats(ls[i]);
    }
  }

  /** For every filter that fetches through keys: the limited answer is the beginning of the unlimited
      one if the limit spares every list; and if no event is under two of the keys, only then. */
  lemma LimitHarmsIff(cat: Catalogue, byId: map<Id, Event>, b: Buckets, f: Filter, letter: char, n: nat)
    requires OneEventPerId(cat, byId) && Filed(byId, b) && f.limit.None?
    requires PlanFor(f, letter).ByKeys? || PlanFor(f, letter).ByAuthorsSince?
    ensures var ls := ListsOf(b, PlanFor(f, letter));
            var matching, limited := Sift(f, Joined(ls)), Answer(byId, b, f.(limit := Some(n)), letter);
            && (|byId| <= USIZE_MAX ==> Answer(byId, b, f, letter) == matching)
            && (LimitSpares(f, ls, n) ==> limited == Take(matching, n))
            && (Disjoint(ls) && limited == Take(matching, n) ==> LimitSpares(f, ls, n))
  {
    hide PlanFor, Sift, Candidates, ListsOf, Joined, TakeEach, Filed, OneEventPerId, LimitSpares, Listed, Disjoint;
    var plan, g := PlanFor(f, letter), f.(limit := Some(n));
    PlanIgnoresLimit(f, Some(n), letter);
    CandidatesJoined(byId, b, f, plan);
    CandidatesJoined(byId, b, g, plan);
    if |byId| <= USIZE_MAX { ListsFit(cat, byId, b, plan, USIZE_MAX); }
    ListsAreListed(cat, byId, b, plan);
    SiftIgnoresLimit(f, Some(n), Joined(TakeEach(ListsOf(b, plan), n)));
    LimitedListsIff(cat, f, ListsOf(b, plan), n);
  }

  /** The guard for a filter that fetches one list, whatever else it asks for. */
  ghost predicate OneListSpared(f: Filter, l: seq<Event>, n: nat) {
    || n == 0 || |l| <= n
    || (forall j :: 0 <= j < n ==> PostMatches(f, l[j]))
    || (forall j :: n <= j < |l| ==> !PostMatches(f, l[j]))
  }

  lemma OneListSparedIff(cat: Catalogue, f: Filter, l: seq<Event>, n: nat)
    requires Oldest.Apart(l) && AllGenuine(cat, l)
    ensures LimitSpares(f, [l], n) <==> OneListSpared(f, l, n)
  {
    hide PostMatches, Sift;
    var ls := [l];
    assert ls[..0] == [];
    SparedMeans(f, ls, n, 0);
    SiftStep(f, [], cat(seq(32, i => 0)));
    if |l| > n {
      var first := l[..n];
      assert [] + first == first;
      assert AllGenuine(cat, first) by { assert forall x :: x in first ==> x in l; }
      AllPassIffAsMany(cat, f, first);
    }
  }

  lemma AllPassIffAsMany(cat: Catalogue, f: Filter, s: seq<Event>)
    requires Oldest.Apart(s) && AllGenuine(cat, s)
    ensures |Sift(f, s)| >= |s| <==> forall j :: 0 <= j < |s| ==> PostMatches(f, s[j])
  {
    hide PostMatches, Sift;
    if forall j :: 0 <= j < |s| ==> PostMatches(f, s[j]) {
      assert [] + s == s;
      SiftCounts(cat, f, [], s);
    } else {
      var j :| 0 <= j < |s| && !PostMatches(f, s[j]);
      OneFailsSoFewer(cat, f, s, j);
    }
  }

  lemma OneFailsSoFewer(cat: Catalogue, f: Filter, s: seq<Event>, j: nat)
    requires Oldest.Apart(s) && AllGenuine(cat, s) && j < |s| && !PostMatches(f, s[j])
    ensures |Sift(f, s)| < |s|
  {
    hide PostMatches, Sift;
    var got, x := Sift(f, s), s[j];
    SiftAre(cat, f, s);
    forall i, k | 0 <= i < k < |got| ensures got[i] != got[k] { assert got[i].id != got[k].id; }
    EventSets.DistinctCount(got);
    EventSets.DistinctCount(s);
    var inGot, inS := set e | e in got, set e | e in s;
    assert x in inS && x !in inGot;
    assert inGot + {x} <= inS;
    Oldest.SubsetCount(inGot + {x}, inS);
  }

  /** For every filter whose plan fetches one list, with any other conditions: the answer is the first
      `n` matching events of the list, newest first, if and only if there is no limit to speak of,
      or the first `n` events all match, or none after them does. */
  lemma OneListLimitIff(cat: Catalogue, byId: map<Id, Event>, b: Buckets, f: Filter, letter: char, n: nat)
    requires OneEventPerId(cat, byId) && Filed(byId, b) && f.limit.None?
    requires var plan := PlanFor(f, letter);
             (plan.ByKeys? || plan.ByAuthorsSince?) && |ListsOf(b, plan)| == 1
    ensures var l := ListsOf(b, PlanFor(f, letter))[0];
            var matching, limited := Sift(f, l), Answer(byId, b, f.(limit := Some(n)), letter);
            && EventSets.Sorted(l) && EventSets.Sorted(matching)
            && (forall e :: e in matching <==> e in l && PostMatches(f, e))
            && (|byId| <= USIZE_MAX ==> Answer(byId, b, f, letter) == matching)
            && (limited == Take(matching, n) <==> OneListSpared(f, l, n))
  {
    hide PlanFor, Sift, ListsOf, Filed, OneEventPerId, LimitSpares, PostMatches, Answer, OneListSpared, Before;
    var ls := ListsOf(b, PlanFor(f, letter));
    var l := ls[0];
    LimitHarmsIff(cat, byId, b, f, letter, n);
    ListsAreListed(cat, byId, b, PlanFor(f, letter));
    assert ls == [l] && Disjoint(ls);
    OneListSparedIff(cat, f, l, n);
    assert ls[..0] == [] && [] + l == l && Joined(ls) == Joined(ls[..0]) + l;
    SiftAre(cat, f, l);
    SiftKeepsOrder(cat, f, l);
  }

  lemma {:induction false} SiftKeepsOrder(cat: Catalogue, f: Filter, l: seq<Event>)
    requires EventSets.Sorted(l) && AllGenuine(cat, l)
    ensures EventSets.Sorted(Sift(f, l))
  {
    hide PostMatches, Sift, HasId, Before;
    if l == [] {
      SiftStep(f, [], cat(seq(32, i => 0)));
    } else {
      var k := |l| - 1;
      var t, e := l[..k], l[k];
      assert l == t + [e];
      assert AllGenuine(cat, t) by { assert forall x :: x in t ==> x in l; }
      SiftKeepsOrder(cat, f, t);
      SiftStep(f, t, e);
      SiftAre(cat, f, t);
      var got := Sift(f, t);
      forall i | 0 <= i < |got| ensures Before(got[i], e) {
        assert got[i] in got && got[i] in t;
        var j :| 0 <= j < |t| && t[j] == got[i];
      }
    }
  }

  /** A limit comes before kinds: if the newest events of an author are of other kinds, a filter for
      that author and kind finds nothing, whatever older events there are. */
  lemma LimitComesBeforeKinds(byId: map<Id, Event>, b: Buckets, author: Id, kind: nat, n: nat, letter: char)
    requires n <= |Bucket(b, ByPubkey(Fold(author)))|
    requires forall i :: 0 <= i < n ==> Bucket(b, ByPubkey(Fold(author)))[i].kind != kind
    ensures var f := Filter(None, Some([kind]), Some([author]), map[], None, None, Some(n), None, None);
            && Answer(byId, b, f, letter) == []
            && forall e: Event :: e.pubkey == author && e.kind == kind ==> Satisfies(f, e)
  {
    hide Fold, Sift, PostMatches, PlanFor, Joined, TakeEach, ListsOf, Candidates;
    var f := Filter(None, Some([kind]), Some([author]), map[], None, None, Some(n), None, None);
    var keys := [ByPubkey(Fold(author))];
    var cands := Take(Bucket(b, keys[0]), n);
    OneAuthorPlan(b, f, author, letter);
    CandidatesJoined(byId, b, f, ByKeys(keys));
    OneList(ListsOf(b, ByKeys(keys)), n);
    assert [] + cands == cands;
    forall i | 0 <= i < |cands| ensures !PostMatches(f, cands[i]) { WrongKindFails(f, cands[i]); }
    SiftNothing(f, [], cands);
    SiftStep(f, [], Event(author, author, 0, 0, [], []));
  }

  lemma OneAuthorPlan(b: Buckets, f: Filter, author: Id, letter: char)
    requires f.authors == Some([author]) && f.since.None? && f.ids.None? && f.tagFilters == map[]
    requires f.eTagsBytes.None? && f.pTagsBytes.None?
    ensures PlanFor(f, letter) == ByKeys([ByPubkey(Fold(author))])
    ensures ListsOf(b, ByKeys([ByPubkey(Fold(author))])) == [Bucket(b, ByPubkey(Fold(author)))]
  {
    hide Fold;
    assert PubkeyKeys([author]) == [ByPubkey(Fold(author))];
    assert !UsesOther(f);
  }

  lemma WrongKindFails(f: Filter, e: Event)
    requires !KindMatches(f, e)
    ensures !PostMatches(f, e)
  {
  }

  lemma OneList(ls: seq<seq<Event>>, n: nat)
    requires |ls| == 1
    ensures Joined(TakeEach(ls, n)) == Take(ls[0], n)
  {
    var t := TakeEach(ls, n);
    assert t[..0] == [] && Joined(t) == Joined(t[..0]) + t[0];
  }

  // ---------------------------------------------------------------- filters with one condition

  /** A condition on kinds, authors, or the values of one tag. */
  datatype Condition =
    | Kinds(kinds: seq<nat>)
    | Authors(authors: seq<Id>)
    | ETags(texts: seq<string>)
    | PTags(texts: seq<string>)
    | Tags(letter: char, values: seq<string>)

  predicate ValidCondition(c: Condition) {
    match c
    case Kinds(kinds) => kinds != []
    case Authors(authors) => authors != []
    case ETags(texts) => texts != []
    case PTags(texts) => texts != []
    case Tags(letter, values) => IsOther(letter) && values != []
  }

  function Fresh(c: Condition, since: Option<nat>, until: Option<nat>, limit: Option<nat>): Filter {
    match c
    case Kinds(kinds) => Filter(None, Some(kinds), None, map[], since, until, limit, None, None)
    case Authors(authors) => Filter(None, None, Some(authors), map[], since, until, limit, None, None)
    case ETags(texts) => Filter(None, None, None, map['e' := texts], since, until, limit, None, None)
    case PTags(texts) => Filter(None, None, None, map['p' := texts], since, until, limit, None, None)
    case Tags(letter, values) => Filter(None, None, None, map[letter := values], since, until, limit, None, None)
  }

  /** The filter with that condition, times and a limit; `prepared` says whether its hex values
      were decoded beforehand. */
  function FilterOf(c: Condition, since: Option<nat>, until: Option<nat>, limit: Option<nat>, prepared: bool): Filter {
    var f := Fresh(c, since, until, limit);
    if prepared then ParseHexValues(f) else f
  }

  function KeysFor(c: Condition): seq<BucketKey> {
    match c
    case Kinds(kinds) => KindKeys(kinds)
    case Authors(authors) => PubkeyKeys(authors)
    case ETags(texts) => ETagKeys(DecodeAll(texts))
    case PTags(texts) => PTagKeys(DecodeAll(texts))
    case Tags(letter, values) => LetterKeys(letter, values)
  }

  function From(since: Option<nat>): nat {
    if since.Some? then since.value else 0
  }

  lemma PlanOf(c: Condition, since: Option<nat>, until: Option<nat>, limit: Option<nat>, prepared: bool, letter: char)
    requires ValidCondition(c) && ValidLetter(FilterOf(c, since, until, limit, prepared), letter)
    ensures PlanFor(FilterOf(c, since, until, limit, prepared), letter) ==
            if c.Authors? && since.Some? then ByAuthorsSince(c.authors, since.value) else ByKeys(KeysFor(c))
  {
    hide Fold, ParseHex32, KindKeys, PubkeyKeys, ETagKeys, PTagKeys, LetterKeys, DecodeAll;
    if c.Tags? { assert HasValues(FilterOf(c, since, until, limit, prepared), c.letter); }
  }

  /** Of an event the condition fetches, only its time is left to check, and its author, which
      the index knows by fold. */
  lemma PostOf(c: Condition, since: Option<nat>, until: Option<nat>, limit: Option<nat>, prepared: bool, e: Event,
               k: BucketKey)
    requires ValidCondition(c) && k in KeysFor(c) && k in KeysOf(e) && (c.Authors? ==> e.pubkey in c.authors)
    ensures var f := FilterOf(c, since, until, limit, prepared); PostMatches(f, e) <==> InTime(f, e)
  {
    hide Fold, ParseHex32, PubkeyKeys, ETagKeys, PTagKeys, LetterKeys, DecodeAll, KeysOf;
    KeysAreBelonging(e, k);
    if c.Tags? { assert HasValues(FilterOf(c, since, until, limit, prepared), c.letter); }
  }

  predicate NotLate(e: Event, until: Option<nat>) {
    until.Some? ==> e.createdAt <= until.value
  }

  lemma TimesOf(c: Condition, since: Option<nat>, until: Option<nat>, limit: Option<nat>, prepared: bool, e: Event)
    ensures var f := FilterOf(c, since, until, limit, prepared);
            && f.since == since && f.until == until && f.limit == limit
            && FilterOf(c, since, until, None, prepared).(limit := limit) == f
            && (InTime(f, e) <==> e.createdAt >= From(since) && NotLate(e, until))
  {
    hide DecodeAll;
  }

  /** No stored event shares a queried author's fold without being by one of the authors. */
  ghost predicate AuthorsKnown(byId: map<Id, Event>, c: Condition) {
    c.Authors? ==>
      forall e, k :: Stored(byId, e) && k in KeysFor(c) && k in KeysOf(e) ==> e.pubkey in c.authors
  }

  /** The stored events under each value, newest first, not older than `since`. */
  function Ranges(b: Buckets, c: Condition, since: Option<nat>): seq<seq<Event>> {
    var keys := KeysFor(c);
    seq(|keys|, i requires 0 <= i < |keys| => TakeSince(Bucket(b, keys[i]), From(since)))
  }

  /** What a list fetched for a value looks like: its range, and then perhaps older events. */
  lemma FetchedList(cat: Catalogue, byId: map<Id, Event>, b: Buckets, c: Condition, since: Option<nat>,
                    until: Option<nat>, limit: Option<nat>, prepared: bool, letter: char, i: nat)
    requires OneEventPerId(cat, byId) && Filed(byId, b) && ValidCondition(c) && AuthorsKnown(byId, c)
    requires ValidLetter(FilterOf(c, since, until, limit, prepared), letter) && i < |KeysFor(c)|
    ensures var f := FilterOf(c, since, until, limit, prepared);
            var plan := PlanFor(f, letter);
            && (plan.ByKeys? || plan.ByAuthorsSince?) && |ListsOf(b, plan)| == |KeysFor(c)|
            && var l, r := ListsOf(b, plan)[i], Ranges(b, c, since)[i];
               && EventSets.Sorted(l) && AllGenuine(cat, l) && r <= l
               && (forall e :: e in l ==> (PostMatches(f, e) <==> InTime(f, e)))
               && (forall j :: 0 <= j < |l| ==> (l[j].createdAt >= From(since) <==> j < |r|))
  {
    hide Fold, PostMatches, KeysOf, PubkeyKeys, TakeSince, PlanFor, FilterOf, ValidCondition, InTime, Before;
    var f := FilterOf(c, since, until, limit, prepared);
    PlanOf(c, since, until, limit, prepared, letter);
    AuthorKeys(c);
    var k := KeysFor(c)[i];
    var s := Bucket(b, k);
    assert k in KeysFor(c);
    TakeSinceIsPrefix(s, From(since));
    TakeSinceAre(s, From(since));
    FiledIsTidy(cat, byId, b);
    forall e | e in s ensures PostMatches(f, e) <==> InTime(f, e) {
      assert Stored(byId, e) && k in KeysOf(e);
      PostOf(c, since, until, limit, prepared, e, k);
    }
    forall j | 0 <= j < |s| ensures s[j].createdAt >= From(since) <==> j < |TakeSince(s, From(since))| {
      var m := |TakeSince(s, From(since))|;
      if j >= m { SortedByTime(s, m, j); }
    }
  }

  lemma SortedByTime(s: seq<Event>, i: nat, j: nat)
    requires EventSets.Sorted(s) && i <= j < |s|
    ensures s[j].createdAt <= s[i].createdAt
  {
    if i < j { assert Before(s[i], s[j]); }
  }

  lemma AuthorKeys(c: Condition)
    ensures c.Authors? ==> |KeysFor(c)| == |c.authors|
    ensures c.Authors? ==> forall i :: 0 <= i < |c.authors| ==> KeysFor(c)[i] == ByPubkey(Fold(c.authors[i]))
  {
  }

  /** Unless folds collide, the stored events under the condition's keys, within the times, are the
      events that satisfy the filter. */
  lemma MatchesAre(c: Condition, since: Option<nat>, until: Option<nat>, limit: Option<nat>, prepared: bool,
                   letter: char, e: Event)
    requires ValidCondition(c) && ValidLetter(FilterOf(c, since, until, limit, prepared), letter)
    requires NoCollision(FilterOf(c, since, until, limit, prepared), e)
    requires c.Authors? && (exists k :: k in KeysFor(c) && k in KeysOf(e)) ==> e.pubkey in c.authors
    ensures Satisfies(FilterOf(c, since, until, limit, prepared), e) <==>
            e.createdAt >= From(since) && NotLate(e, until) && exists k :: k in KeysFor(c) && k in KeysOf(e)
  {
    hide PlanFor, FilterOf, KeysFor, ValidLetter, KeysOf, PostMatches, Satisfies, NoCollision, InTime, NotLate, Answers,
      Effective, LedBy, Parsed, NothingDropped;
    var f := FilterOf(c, since, until, limit, prepared);
    ConditionDropsNothing(c, since, until, limit, prepared);
    EffectiveIsAll(f, letter);
    AnswersAreSatisfied(f, letter, e);
    ChecksMean(f, letter, e);
    PlanOf(c, since, until, limit, prepared, letter);
    TimesOf(c, since, until, limit, prepared, e);
    if PostMatches(f, e) {
      PostChecks(f, e);
      PlanMeans(f, letter, e);
    }
    AuthorFolds(c, e);
    if k :| k in KeysFor(c) && k in KeysOf(e) { PostOf(c, since, until, limit, prepared, e, k); }
  }

  lemma ConditionDropsNothing(c: Condition, since: Option<nat>, until: Option<nat>, limit: Option<nat>, prepared: bool)
    requires ValidCondition(c)
    ensures var f := FilterOf(c, since, until, limit, prepared); Parsed(f) && NothingDropped(f)
  {
    hide ParseHex32;
    OneLetterDropsNothing(FilterOf(c, since, until, limit, prepared));
  }

  lemma AuthorFolds(c: Condition, e: Event)
    ensures c.Authors? ==> ((exists a :: a in c.authors && Fold(a) == Fold(e.pubkey)) <==>
                            exists k :: k in KeysFor(c) && k in KeysOf(e))
  {
    hide Fold, KeysOf;
    if c.Authors? {
      var keys := PubkeyKeys(c.authors);
      if a :| a in c.authors && Fold(a) == Fold(e.pubkey) {
        var i :| 0 <= i < |c.authors| && c.authors[i] == a;
        assert keys[i] in keys;
        KeysAreBelonging(e, keys[i]);
      }
      if k :| k in keys && k in KeysOf(e) {
        var i :| 0 <= i < |keys| && keys[i] == k;
        KeysAreBelonging(e, k);
        assert c.authors[i] in c.authors;
      }
    }
  }

  // ---------------------------------------------------------------- any list of values

  lemma FetchedListsPass(cat: Catalogue, byId: map<Id, Event>, b: Buckets, c: Condition, since: Option<nat>,
                         limit: Option<nat>, prepared: bool, letter: char)
    requires OneEventPerId(cat, byId) && Filed(byId, b) && ValidCondition(c) && AuthorsKnown(byId, c)
    requires ValidLetter(FilterOf(c, since, None, limit, prepared), letter)
    ensures var f := FilterOf(c, since, None, limit, prepared);
            var plan := PlanFor(f, letter);
            && (plan.ByKeys? || plan.ByAuthorsSince?) && |ListsOf(b, plan)| == |KeysFor(c)|
            && Fetchable(cat, f, ListsOf(b, plan))
  {
    hide PlanFor, FilterOf, ListsOf, PostMatches, Filed, OneEventPerId, AuthorsKnown, Ranges, InTime, KeysFor,
      ValidLetter,
      ValidCondition;
    var f := FilterOf(c, since, None, limit, prepared);
    var plan := PlanFor(f, letter);
    PlanOf(c, since, None, limit, prepared, letter);
    assert |ListsOf(b, plan)| == |KeysFor(c)| by { ListsCount(b, c, since, plan); }
    forall i | 0 <= i < |ListsOf(b, plan)|
      ensures PassFirst(f, ListsOf(b, plan)[i]) && Oldest.Apart(ListsOf(b, plan)[i]) &&
              AllGenuine(cat, ListsOf(b, plan)[i])
    {
      FetchedList(cat, byId, b, c, since, None, limit, prepared, letter, i);
      var l := ListsOf(b, plan)[i];
      EventSets.SortedHasNoRepeats(l);
      forall j, k | 0 <= j < k < |l| && PostMatches(f, l[k]) ensures PostMatches(f, l[j]) {
        assert l[j] in l && l[k] in l;
        SortedByTime(l, j, k);
        TimesOf(c, since, None, limit, prepared, l[j]);
        TimesOf(c, since, None, limit, prepared, l[k]);
      }
    }
  }

  lemma ListsCount(b: Buckets, c: Condition, since: Option<nat>, plan: Plan)
    requires plan == if c.Authors? && since.Some? then ByAuthorsSince(c.authors, since.value) else ByKeys(KeysFor(c))
    ensures |ListsOf(b, plan)| == |KeysFor(c)|
  {
    AuthorKeys(c);
  }

  /** Any list of values, an optional `since`, and a limit: the values are answered one after
      another in the order given, each newest first, each event once, and cut to the limit. */
  lemma LimitAnswersInTurn(cat: Catalogue, byId: map<Id, Event>, b: Buckets, c: Condition, since: Option<nat>, n: nat,
                           prepared: bool, letter: char)
    requires OneEventPerId(cat, byId) && Filed(byId, b) && |byId| <= USIZE_MAX
    requires ValidCondition(c) && AuthorsKnown(byId, c)
    requires ValidLetter(FilterOf(c, since, None, Some(n), prepared), letter)
    ensures var f := FilterOf(c, since, None, None, prepared);
            && ValidLetter(f, letter) && PlanFor(f, letter) ==
                 PlanFor(FilterOf(c, since, None, Some(n), prepared), letter)
            && (PlanFor(f, letter).ByKeys? || PlanFor(f, letter).ByAuthorsSince?)
            && Answer(byId, b, f, letter) == Sift(f, Joined(ListsOf(b, PlanFor(f, letter))))
            && Answer(byId, b, FilterOf(c, since, None, Some(n), prepared), letter) ==
                 Take(Answer(byId, b, f, letter), n)
  {
    hide PlanFor, FilterOf, ListsOf, Answer, Sift, Filed, OneEventPerId, AuthorsKnown, Fetchable, KeysFor,
      ValidCondition;
    var f := FilterOf(c, since, None, None, prepared);
    TimesOf(c, since, None, Some(n), prepared, cat(seq(32, i => 0)));
    TimesOf(c, since, None, None, prepared, cat(seq(32, i => 0)));
    LetterIgnoresLimit(f, Some(n), letter);
    PlanIgnoresLimit(f, Some(n), letter);
    FetchedListsPass(cat, byId, b, c, since, None, prepared, letter);
    LimitTakesAPrefix(cat, byId, b, f, letter, n);
  }

  lemma LetterIgnoresLimit(f: Filter, limit: Option<nat>, letter: char)
    ensures ValidLetter(f.(limit := limit), letter) <==> ValidLetter(f, letter)
  {
    assert UsesOther(f.(limit := limit)) <==> UsesOther(f);
  }

  // ---------------------------------------------------------------- when that is the newest

  ghost predicate AllSorted(ls: seq<seq<Event>>) {
    forall i :: 0 <= i < |ls| ==> EventSets.Sorted(ls[i])
  }

  /** The newest event of each value ranks after all that is answered for the values before it. */
  ghost predicate InTurn(ls: seq<seq<Event>>, n: nat) {
    forall i :: 0 <= i < |ls| && ls[i] != [] ==> forall x :: x in Take(Joined(ls[..i]), n) ==> Before(x, ls[i][0])
  }

  /** The first `n` events each rank before everything after them. */
  ghost predicate InOrder(d: seq<Event>, n: nat) {
    forall i, j :: 0 <= i < j < |d| && i < n ==> Before(d[i], d[j])
  }

  lemma InOrderStep(d: seq<Event>, l: seq<Event>, n: nat)
    requires EventSets.Sorted(l)
    ensures InOrder(d + l, n) <==> InOrder(d, n) && (l != [] ==> forall x :: x in Take(d, n) ==> Before(x, l[0]))
  {
    var e := d + l;
    if InOrder(e, n) {
      forall i, j | 0 <= i < j < |d| && i < n ensures Before(d[i], d[j]) { assert d[i] == e[i] && d[j] == e[j]; }
      if l != [] {
        forall x | x in Take(d, n) ensures Before(x, l[0]) {
          var i :| 0 <= i < |Take(d, n)| && Take(d, n)[i] == x;
          assert e[i] == x && e[|d|] == l[0];
        }
      }
    }
    if InOrder(d, n) && (l != [] ==> forall x :: x in Take(d, n) ==> Before(x, l[0])) {
      forall i, j | 0 <= i < j < |e| && i < n ensures Before(e[i], e[j]) {
        if i < |d| <= j {
          assert e[i] == Take(d, n)[i] && e[j] == l[j - |d|];
          if j > |d| { BeforeTransitive(e[i], l[0], l[j - |d|]); }
        }
      }
    }
  }

  lemma {:induction false} InTurnMeansInOrder(ls: seq<seq<Event>>, n: nat)
    requires AllSorted(ls)
    ensures InOrder(Joined(ls), n) <==> InTurn(ls, n)
  {
    hide InOrder, Before;
    if ls == [] {
      NothingInOrder(n);
    } else {
      var k := |ls| - 1;
      InTurnMeansInOrder(ls[..k], n);
      InOrderStep(Joined(ls[..k]), ls[k], n);
      forall i | 0 <= i < k ensures ls[..k][..i] == ls[..i] && ls[..k][i] == ls[i] {}
    }
  }

  lemma NothingInOrder(n: nat)
    ensures InOrder([], n)
  {
  }

  /** Two listings of the same events, one of them sorted, begin alike if and only if the other is
      in order that far. */
  lemma {:induction false} SameStartIffInOrder(d: seq<Event>, all: seq<Event>, n: nat)
    requires EventSets.Sorted(all) && Oldest.Apart(d) && forall x :: x in d <==> x in all
    ensures Take(d, n) == Take(all, n) <==> InOrder(d, n)
    decreases n
  {
    hide Before, InOrder, Take;
    EventSets.SortedHasNoRepeats(all);
    Oldest.SameMembersSameLength(d, all);
    if n == 0 || d == [] {
      NothingToOrder(d, all, n);
    } else if d[0] == all[0] {
      var d', all' := d[1..], all[1..];
      TailsMatch(d, all);
      SameStartIffInOrder(d', all', n - 1);
      TakeHeads(d, all, n);
      InOrderHead(d, n);
    } else {
      DifferentHeads(d, all, n);
    }
  }

  lemma NothingToOrder(d: seq<Event>, all: seq<Event>, n: nat)
    requires n == 0 || (d == [] && all == [])
    ensures Take(d, n) == Take(all, n) && InOrder(d, n)
  {
  }

  lemma TailsMatch(d: seq<Event>, all: seq<Event>)
    requires EventSets.Sorted(all) && Oldest.Apart(d) && d != [] && all != [] && d[0] == all[0]
    requires forall x :: x in d <==> x in all
    ensures EventSets.Sorted(all[1..]) && Oldest.Apart(d[1..]) && forall x :: x in d[1..] <==> x in all[1..]
    ensures forall x :: x in d[1..] ==> Before(d[0], x)
  {
    hide Before;
    EventSets.SortedHasNoRepeats(all);
    var d', all' := d[1..], all[1..];
    assert d == [d[0]] + d' && all == [all[0]] + all';
    forall x ensures x in d' <==> x in all' {
      assert x in d' <==> x in d && x != d[0];
      assert x in all' <==> x in all && x != all[0];
    }
    forall x | x in d' ensures Before(d[0], x) {
      assert x in all';
      var i :| 0 <= i < |all'| && all'[i] == x;
      assert all[i + 1] == x;
    }
  }

  lemma DifferentHeads(d: seq<Event>, all: seq<Event>, n: nat)
    requires EventSets.Sorted(all) && n > 0 && d != [] && all != [] && d[0] != all[0]
    requires forall x :: x in d <==> x in all
    ensures Take(d, n) != Take(all, n) && !InOrder(d, n)
  {
    hide Before;
    assert Take(d, n)[0] == d[0] && Take(all, n)[0] == all[0];
    assert d[0] in all && all[0] in d;
    FirstsAgree(d, all);
    var j :| 0 <= j < |d| && d[j] == all[0];
    assert j > 0 && !Before(d[0], d[j]);
  }

  lemma FirstsAgree(d: seq<Event>, all: seq<Event>)
    requires EventSets.Sorted(all) && d != [] && all != [] && d[0] in all
    ensures d[0] != all[0] ==> !Before(d[0], all[0])
  {
    var i :| 0 <= i < |all| && all[i] == d[0];
    if i > 0 { BeforeTotal(all[0], all[i]); }
  }

  lemma TakeHeads(s: seq<Event>, t: seq<Event>, n: nat)
    requires n > 0 && s != [] && t != [] && s[0] == t[0]
    ensures Take(s, n) == Take(t, n) <==> Take(s[1..], n - 1) == Take(t[1..], n - 1)
  {
    assert Take(s, n) == [s[0]] + Take(s[1..], n - 1) && Take(t, n) == [t[0]] + Take(t[1..], n - 1);
    assert Take(s, n)[1..] == Take(s[1..], n - 1) && Take(t, n)[1..] == Take(t[1..], n - 1);
  }

  lemma InOrderHead(d: seq<Event>, n: nat)
    requires n > 0 && d != []
    ensures InOrder(d, n) <==> InOrder(d[1..], n - 1) && forall x :: x in d[1..] ==> Before(d[0], x)
  {
    var t := d[1..];
    if InOrder(d, n) {
      forall i, j | 0 <= i < j < |t| && i < n - 1 ensures Before(t[i], t[j]) {
        assert t[i] == d[i + 1] && t[j] == d[j + 1];
      }
      forall x | x in t ensures Before(d[0], x) {
        var j :| 0 <= j < |t| && t[j] == x;
        assert d[j + 1] == x;
      }
    }
    if InOrder(t, n - 1) && forall x :: x in t ==> Before(d[0], x) {
      forall i, j | 0 <= i < j < |d| && i < n ensures Before(d[i], d[j]) {
        assert d[j] == t[j - 1] && t[j - 1] in t;
        if i > 0 { assert d[i] == t[i - 1]; }
      }
    }
  }

  /** A list without the events of another. */
  function Leave(l: seq<Event>, d: seq<Event>): seq<Event> {
    if l == [] then []
    else
      var k := |l| - 1;
      if l[k] in d then Leave(l[..k], d) else Leave(l[..k], d) + [l[k]]
  }

  lemma {:induction false} LeaveHas(l: seq<Event>, d: seq<Event>)
    ensures forall x :: x in Leave(l, d) <==> x in l && x !in d
  {
    if l != [] {
      var k := |l| - 1;
      LeaveHas(l[..k], d);
      assert forall x :: x in l <==> x in l[..k] || x == l[k];
    }
  }

  lemma {:induction false} LeaveSorted(l: seq<Event>, d: seq<Event>)
    requires EventSets.Sorted(l)
    ensures EventSets.Sorted(Leave(l, d))
  {
    hide Before;
    if l != [] {
      var k := |l| - 1;
      LeaveSorted(l[..k], d);
      LeaveHas(l[..k], d);
      var got := Leave(l[..k], d);
      forall i | 0 <= i < |got| ensures Before(got[i], l[k]) {
        assert got[i] in got;
        var j :| 0 <= j < k && l[..k][j] == got[i];
      }
    }
  }

  lemma {:induction false} LeaveSame(l: seq<Event>, d: seq<Event>, e: seq<Event>)
    requires forall x :: x in d <==> x in e
    ensures Leave(l, d) == Leave(l, e)
  {
    if l != [] { LeaveSame(l[..|l| - 1], d, e); }
  }

  lemma {:induction false} LeaveAll(l: seq<Event>, d: seq<Event>)
    requires forall x :: x in l ==> x !in d
    ensures Leave(l, d) == l
  {
    if l != [] {
      var k := |l| - 1;
      assert forall x :: x in l[..k] ==> x in l;
      LeaveAll(l[..k], d);
      assert l == l[..k] + [l[k]];
    }
  }

  /** Sifting a further list, the first part of which passes, adds what is new in that part. */
  lemma {:induction false} SiftOnto(cat: Catalogue, f: Filter, d: seq<Event>, l: seq<Event>, m: nat)
    requires m <= |l| && AllGenuine(cat, d + l) && Oldest.Apart(l)
    requires forall j :: 0 <= j < |l| ==> (PostMatches(f, l[j]) <==> j < m)
    ensures Sift(f, d + l) == Sift(f, d) + Leave(l[..m], Sift(f, d))
  {
    hide PostMatches, Sift, HasId;
    if l == [] {
      assert d + l == d && l[..m] == [];
    } else {
      var k := |l| - 1;
      var t, e := l[..k], l[k];
      assert d + l == (d + t) + [e] && l == t + [e];
      assert AllGenuine(cat, d + t) by { assert forall x :: x in d + t ==> x in d + l; }
      assert Genuine(cat, e) by { assert e in d + l; }
      SiftOnto(cat, f, d, t, if m < k then m else k);
      SiftStep(f, d + t, e);
      if m == |l| {
        assert t[..k] == t && l[..m] == l && l[..m][..k] == t;
        SiftedIff(cat, f, d, t, e);
      } else {
        assert t[..m] == l[..m];
      }
    }
  }

  lemma SiftedIff(cat: Catalogue, f: Filter, d: seq<Event>, t: seq<Event>, e: Event)
    requires AllGenuine(cat, d + t) && Genuine(cat, e) && e !in t
    ensures HasId(Sift(f, d + t), e.id) <==> e in Sift(f, d)
  {
    hide PostMatches, Sift;
    assert AllGenuine(cat, d) by { assert forall x :: x in d ==> x in d + t; }
    SiftAre(cat, f, d + t);
    SiftAre(cat, f, d);
  }

  /** Every list without what an earlier one holds. */
  function Firsts(rs: seq<seq<Event>>): seq<seq<Event>> {
    if rs == [] then []
    else
      var k := |rs| - 1;
      Firsts(rs[..k]) + [Leave(rs[k], Joined(rs[..k]))]
  }

  lemma {:induction false} FirstsAre(rs: seq<seq<Event>>)
    requires AllSorted(rs)
    ensures |Firsts(rs)| == |rs| && AllSorted(Firsts(rs)) && Disjoint(Firsts(rs))
    ensures forall x :: x in Joined(Firsts(rs)) <==> x in Joined(rs)
    ensures forall i :: 0 <= i < |rs| ==> Firsts(rs)[..i] == Firsts(rs[..i])
  {
    if rs != [] {
      var k := |rs| - 1;
      var before, last := Firsts(rs[..k]), Leave(rs[k], Joined(rs[..k]));
      FirstsAre(rs[..k]);
      LeaveHas(rs[k], Joined(rs[..k]));
      LeaveSorted(rs[k], Joined(rs[..k]));
      var fs := Firsts(rs);
      assert fs == before + [last] && fs[..k] == before;
      forall i, j, x | 0 <= i < j < |fs| && x in fs[i] ensures x !in fs[j] {
        if j == k { JoinedHas(before, x); }
      }
      forall i | 0 <= i < |rs| ensures fs[..i] == Firsts(rs[..i]) {
        if i < k { assert fs[..i] == before[..i] && rs[..k][..i] == rs[..i]; }
      }
    }
  }

  /** Lists of each of which the first part passes: what is sifted is those parts, each without what
      an earlier one holds. */
  lemma {:induction false} SiftJoined(cat: Catalogue, f: Filter, ls: seq<seq<Event>>, rs: seq<seq<Event>>)
    requires |ls| == |rs| && AllSorted(rs)
    requires forall i :: 0 <= i < |ls| ==> rs[i] <= ls[i] && Oldest.Apart(ls[i]) && AllGenuine(cat, ls[i])
    requires forall i, j :: 0 <= i < |ls| && 0 <= j < |ls[i]| ==> (PostMatches(f, ls[i][j]) <==> j < |rs[i]|)
    ensures Sift(f, Joined(ls)) == Joined(Firsts(rs)) && AllGenuine(cat, Joined(ls))
  {
    hide PostMatches, Sift, Leave;
    if ls == [] {
      SiftStep(f, [], cat(seq(32, i => 0)));
    } else {
      var k := |ls| - 1;
      var l, d := ls[k], Joined(ls[..k]);
      SiftJoined(cat, f, ls[..k], rs[..k]);
      FirstsAre(rs[..k]);
      assert AllGenuine(cat, d + l);
      SiftOnto(cat, f, d, l, |rs[k]|);
      assert l[..|rs[k]|] == rs[k];
      LeaveSame(rs[k], Sift(f, d), Joined(rs[..k]));
      var fs := Firsts(rs);
      assert fs[..k] == Firsts(rs[..k]) && fs[k] == Leave(rs[k], Joined(rs[..k]));
    }
  }

  /** For any list of values, with repeats and with events under several of them: the limited answer
      is the newest matching events in order if and only if the values take turns: of each, the newest
      event that is under no earlier value ranks after everything answered for those. */
  lemma LimitIsNewestIff(cat: Catalogue, byId: map<Id, Event>, b: Buckets, c: Condition, since: Option<nat>, n: nat,
                         prepared: bool, letter: char, all: seq<Event>)
    requires OneEventPerId(cat, byId) && Filed(byId, b) && |byId| <= USIZE_MAX
    requires ValidCondition(c) && AuthorsKnown(byId, c)
    requires ValidLetter(FilterOf(c, since, None, Some(n), prepared), letter)
    requires EventSets.Sorted(all) && forall e :: e in all <==>
               Stored(byId, e) && e.createdAt >= From(since) && exists k :: k in KeysFor(c) && k in KeysOf(e)
    ensures Answer(byId, b, FilterOf(c, since, None, Some(n), prepared), letter) == Take(all, n) <==>
            InTurn(Firsts(Ranges(b, c, since)), n)
  {
    hide PlanFor, FilterOf, Answer, Sift, AuthorsKnown, KeysFor, ValidCondition, ValidLetter, KeysOf, Joined,
      PostMatches, InTurn, TakeSince, InOrder, Before, InTime, Firsts;
    var f, rs := FilterOf(c, since, None, None, prepared), Ranges(b, c, since);
    LimitAnswersInTurn(cat, byId, b, c, since, n, prepared, letter);
    var ls := ListsOf(b, PlanFor(f, letter));
    FetchedLists(cat, byId, b, c, since, prepared, letter);
    RangesAreSorted(b, c, since);
    SiftJoined(cat, f, ls, rs);
    FirstsAre(rs);
    InTurnMeansInOrder(Firsts(rs), n);
    var d := Joined(Firsts(rs));
    JoinedApart(Firsts(rs));
    forall x ensures x in d <==> x in all {
      JoinedHas(rs, x);
      RangesHold(byId, b, c, since, x);
    }
    SameStartIffInOrder(d, all, n);
  }

  lemma FetchedLists(cat: Catalogue, byId: map<Id, Event>, b: Buckets, c: Condition, since: Option<nat>,
                     prepared: bool, letter: char)
    requires OneEventPerId(cat, byId) && Filed(byId, b) && ValidCondition(c) && AuthorsKnown(byId, c)
    requires ValidLetter(FilterOf(c, since, None, None, prepared), letter)
    ensures var f := FilterOf(c, since, None, None, prepared);
            var plan := PlanFor(f, letter);
            && (plan.ByKeys? || plan.ByAuthorsSince?)
            && var ls, rs := ListsOf(b, plan), Ranges(b, c, since);
               && |ls| == |rs|
               && (forall i :: 0 <= i < |ls| ==> rs[i] <= ls[i] && Oldest.Apart(ls[i]) && AllGenuine(cat, ls[i]))
               && (forall i, j :: 0 <= i < |ls| && 0 <= j < |ls[i]| ==> (PostMatches(f, ls[i][j]) <==> j < |rs[i]|))
  {
    hide FilterOf, AuthorsKnown, ValidCondition, ValidLetter, KeysOf, PostMatches, TakeSince, Before, InTime, PlanFor,
      Fold, Filed, OneEventPerId;
    var f := FilterOf(c, since, None, None, prepared);
    var plan := PlanFor(f, letter);
    PlanOf(c, since, None, None, prepared, letter);
    AuthorKeys(c);
    var ls, rs := ListsOf(b, plan), Ranges(b, c, since);
    assert |ls| == |rs|;
    forall i | 0 <= i < |ls|
      ensures rs[i] <= ls[i] && Oldest.Apart(ls[i]) && AllGenuine(cat, ls[i])
      ensures forall j :: 0 <= j < |ls[i]| ==> (PostMatches(f, ls[i][j]) <==> j < |rs[i]|)
    {
      FetchedList(cat, byId, b, c, since, None, None, prepared, letter, i);
      EventSets.SortedHasNoRepeats(ls[i]);
      forall j | 0 <= j < |ls[i]| ensures PostMatches(f, ls[i][j]) <==> j < |rs[i]| {
        assert ls[i][j] in ls[i];
        TimesOf(c, since, None, None, prepared, ls[i][j]);
      }
    }
  }

  lemma RangesAreSorted(b: Buckets, c: Condition, since: Option<nat>)
    requires forall k :: EventSets.Sorted(Bucket(b, k))
    ensures AllSorted(Ranges(b, c, since))
  {
    hide TakeSince, KeysFor;
    forall i | 0 <= i < |KeysFor(c)| ensures EventSets.Sorted(Ranges(b, c, since)[i]) {
      TakeSinceAre(Bucket(b, KeysFor(c)[i]), From(since));
    }
  }

  lemma {:induction false} JoinedApart(ls: seq<seq<Event>>)
    requires AllSorted(ls) && Disjoint(ls)
    ensures Oldest.Apart(Joined(ls))
  {
    if ls != [] {
      var k := |ls| - 1;
      JoinedApart(ls[..k]);
      EventSets.SortedHasNoRepeats(ls[k]);
      var d, e := Joined(ls[..k]), Joined(ls);
      forall i, j | 0 <= i < j < |e| ensures e[i] != e[j] {
        if i < |d| <= j {
          assert e[i] in d && e[j] in ls[k];
          JoinedHas(ls[..k], e[i]);
          var a :| 0 <= a < k && e[i] in ls[..k][a];
          assert e[i] in ls[a];
        }
      }
    }
  }

  lemma RangesHold(byId: map<Id, Event>, b: Buckets, c: Condition, since: Option<nat>, x: Event)
    requires Filed(byId, b)
    ensures (exists i :: 0 <= i < |Ranges(b, c, since)| && x in Ranges(b, c, since)[i]) <==>
            Stored(byId, x) && x.createdAt >= From(since) && exists k :: k in KeysFor(c) && k in KeysOf(x)
  {
    hide TakeSince, KeysFor, KeysOf;
    var rs, keys := Ranges(b, c, since), KeysFor(c);
    forall i | 0 <= i < |keys|
      ensures x in rs[i] <==> Stored(byId, x) && x.createdAt >= From(since) && keys[i] in KeysOf(x)
    {
      TakeSinceAre(Bucket(b, keys[i]), From(since));
    }
    if k :| k in keys && k in KeysOf(x) { var i :| 0 <= i < |keys| && keys[i] == k; }
  }

  /** Two kinds and a limit of one: the answer is the newest event of the first kind, however new
      the second kind's are, unless there is none of the first. */
  lemma FirstKindIsServedFirst(cat: Catalogue, byId: map<Id, Event>, b: Buckets, k1: nat, k2: nat, letter: char)
    requires OneEventPerId(cat, byId) && Filed(byId, b) && |byId| <= USIZE_MAX
    requires Bucket(b, ByKind(k1)) != []
    ensures Answer(byId, b, FilterOf(Kinds([k1, k2]), None, None, Some(1), false), letter) == [Bucket(b, ByKind(k1))[0]]
  {
    hide PlanFor, Answer, KeysOf, PostMatches, Before, InTime;
    var c := Kinds([k1, k2]);
    var f := FilterOf(c, None, None, None, false);
    LimitAnswersInTurn(cat, byId, b, c, None, 1, false, letter);
    PlanOf(c, None, None, None, false, letter);
    assert KeysFor(c)[0] == ByKind(k1);
    FetchedLists(cat, byId, b, c, None, false, letter);
    RangesAreSorted(b, c, None);
    var ls, rs := ListsOf(b, PlanFor(f, letter)), Ranges(b, c, None);
    SiftJoined(cat, f, ls, rs);
    AllSinceZero(Bucket(b, ByKind(k1)));
    FirstOfFirsts(rs);
  }

  lemma FirstOfFirsts(rs: seq<seq<Event>>)
    requires |rs| == 2
    ensures rs[0] <= Joined(Firsts(rs))
  {
    hide Leave;
    assert rs[..1] == [rs[0]];
    FirstsOfOne(rs[0]);
    var last := Leave(rs[1], Joined(rs[..1]));
    JoinedTwo(rs[0], last);
    assert Firsts(rs) == [rs[0]] + [last];
  }

  lemma FirstsOfOne(r: seq<Event>)
    ensures Firsts([r]) == [r] && Joined([]) == []
  {
    assert [r][..0] == [];
    LeaveAll(r, []);
  }

  lemma JoinedTwo(a: seq<Event>, b: seq<Event>)
    ensures Joined([a] + [b]) == a + b
  {
    var ls := [a] + [b];
    assert ls[..1] == [a] && [a][..0] == [];
    assert Joined([a]) == [] + a;
  }

  lemma {:induction false} AllSinceZero(s: seq<Event>)
    ensures TakeSince(s, 0) == s
  {
    if s != [] { AllSinceZero(s[1..]); }
  }

  // ---------------------------------------------------------------- one value and `until`

  /** Everything an interval of a list, and nothing else, passes. */
  lemma SiftInterval(cat: Catalogue, f: Filter, s: seq<Event>, p: nat, m: nat)
    requires Oldest.Apart(s) && AllGenuine(cat, s) && p <= m <= |s|
    requires forall i :: 0 <= i < |s| ==> (PostMatches(f, s[i]) <==> p <= i < m)
    ensures Sift(f, s) == s[p..m]
  {
    hide PostMatches, Sift, Leave;
    var a, z := s[..p], s[p..];
    assert s == a + z && [] + a == a;
    SiftNothing(f, [], a);
    SiftStep(f, [], cat(seq(32, i => 0)));
    assert forall j :: 0 <= j < |z| ==> z[j] == s[p + j];
    assert Oldest.Apart(z);
    SiftOnto(cat, f, a, z, m - p);
    LeaveAll(z[..m - p], []);
    assert z[..m - p] == s[p..m];
  }

  /** How many events of a sorted list are later than `until`. */
  function Late(s: seq<Event>, until: Option<nat>): (p: nat)
    ensures p <= |s|
  {
    if s == [] || until.None? || s[0].createdAt <= until.value then 0 else 1 + Late(s[1..], until)
  }

  lemma {:induction false} LateComeFirst(s: seq<Event>, until: Option<nat>)
    requires EventSets.Sorted(s)
    ensures forall i :: 0 <= i < |s| ==> (NotLate(s[i], until) <==> Late(s, until) <= i)
  {
    if s != [] {
      if until.None? || s[0].createdAt <= until.value {
        forall i | 0 <= i < |s| ensures NotLate(s[i], until) { SortedByTime(s, 0, i); }
      } else {
        LateComeFirst(s[1..], until);
        forall i | 0 < i < |s| ensures NotLate(s[i], until) <==> Late(s, until) <= i { assert s[1..][i - 1] == s[i]; }
      }
    }
  }

  /** The guard: no limit to speak of, or nothing of the value is too late, or everything is. */
  ghost predicate LimitIsHarmless(r: seq<Event>, until: Option<nat>, n: nat) {
    || n == 0 || |r| <= n
    || (forall e :: e in r ==> NotLate(e, until))
    || (forall e :: e in r ==> !NotLate(e, until))
  }

  /** One value, an optional `since`, an optional `until` and a limit: the answer is the newest
      matching events, newest first and lower id first among equals, if and only if the limit is
      harmless. `all` lists the matching events in that order. */
  lemma LimitKeepsTheNewestIff(cat: Catalogue, byId: map<Id, Event>, b: Buckets, c: Condition, since: Option<nat>,
                               until: Option<nat>, n: nat, prepared: bool, letter: char, all: seq<Event>)
    requires OneEventPerId(cat, byId) && Filed(byId, b)
    requires ValidCondition(c) && AuthorsKnown(byId, c) && |KeysFor(c)| == 1
    requires ValidLetter(FilterOf(c, since, until, Some(n), prepared), letter)
    requires EventSets.Sorted(all) && forall e :: e in all <==>
               Stored(byId, e) && e.createdAt >= From(since) && NotLate(e, until) && KeysFor(c)[0] in KeysOf(e)
    ensures Answer(byId, b, FilterOf(c, since, until, Some(n), prepared), letter) == Take(all, n) <==>
            LimitIsHarmless(Ranges(b, c, since)[0], until, n)
  {
    hide PlanFor, FilterOf, Sift, Answer, AuthorsKnown, KeysFor, ValidCondition, ValidLetter, KeysOf, PostMatches,
      TakeSince, Before, InTime, Late, NotLate, LimitIsHarmless, OneListSpared, ListsOf, EventSets.Sorted;
    var f := FilterOf(c, since, until, None, prepared);
    var r := Ranges(b, c, since)[0];
    TimesOf(c, since, until, Some(n), prepared, cat(seq(32, i => 0)));
    TimesOf(c, since, until, None, prepared, cat(seq(32, i => 0)));
    LetterIgnoresLimit(f, Some(n), letter);
    FetchedList(cat, byId, b, c, since, until, None, prepared, letter, 0);
    var l := ListsOf(b, PlanFor(f, letter))[0];
    OneListLimitIff(cat, byId, b, f, letter, n);
    RangeOfOne(byId, b, c, since, until, all);
    forall i | 0 <= i < |l| ensures PostMatches(f, l[i]) <==> Late(r, until) <= i < |r| {
      assert l[i] in l;
      TimesOf(c, since, until, None, prepared, l[i]);
      LateOnly(l, r, until, i);
    }
    SiftsToRange(cat, f, l, r, Late(r, until));
    HarmlessIffSpared(f, l, r, until, n);
  }

  lemma SiftsToRange(cat: Catalogue, f: Filter, l: seq<Event>, r: seq<Event>, p: nat)
    requires EventSets.Sorted(l) && AllGenuine(cat, l) && r <= l && p <= |r|
    requires forall i :: 0 <= i < |l| ==> (PostMatches(f, l[i]) <==> p <= i < |r|)
    ensures Sift(f, l) == r[p..]
  {
    hide PostMatches, Sift;
    EventSets.SortedHasNoRepeats(l);
    SiftInterval(cat, f, l, p, |r|);
    assert l[p..|r|] == r[p..];
  }

  lemma HarmlessIffSpared(f: Filter, l: seq<Event>, r: seq<Event>, until: Option<nat>, n: nat)
    requires EventSets.Sorted(r) && r <= l
    requires forall i :: 0 <= i < |l| ==> (PostMatches(f, l[i]) <==> Late(r, until) <= i < |r|)
    ensures OneListSpared(f, l, n) <==> LimitIsHarmless(r, until, n)
  {
    hide PostMatches;
    LateComeFirst(r, until);
    var p, m := Late(r, until), |r|;
    assert (forall e :: e in r ==> NotLate(e, until)) <==> p == 0 || m == 0 by {
      if p > 0 && m > 0 { assert r[0] in r && !NotLate(r[0], until); }
    }
    assert (forall e :: e in r ==> !NotLate(e, until)) <==> p == m by {
      if p < m { assert r[p] in r && NotLate(r[p], until); }
    }
    if n < |l| {
      assert (forall j :: n <= j < |l| ==> !PostMatches(f, l[j])) <==> m <= n || p == m by {
        if n < m && p < m {
          var j := if p < n then n else p;
          assert PostMatches(f, l[j]);
        }
      }
      assert n > 0 ==> ((forall j :: 0 <= j < n ==> PostMatches(f, l[j])) <==> p == 0 && n <= m) by {
        if n > 0 && forall j :: 0 <= j < n ==> PostMatches(f, l[j]) {
          assert PostMatches(f, l[0]) && PostMatches(f, l[n - 1]);
        }
      }
    }
  }

  lemma LateOnly(l: seq<Event>, r: seq<Event>, until: Option<nat>, i: nat)
    requires r <= l && EventSets.Sorted(l) && i < |l|
    ensures i < |r| ==> (NotLate(l[i], until) <==> Late(r, until) <= i)
  {
    if i < |r| {
      assert EventSets.Sorted(r);
      LateComeFirst(r, until);
      assert r[i] == l[i];
    }
  }

  lemma RangeOfOne(byId: map<Id, Event>, b: Buckets, c: Condition, since: Option<nat>, until: Option<nat>,
                   all: seq<Event>)
    requires Filed(byId, b) && |KeysFor(c)| == 1
    requires EventSets.Sorted(all) && forall e :: e in all <==>
               Stored(byId, e) && e.createdAt >= From(since) && NotLate(e, until) && KeysFor(c)[0] in KeysOf(e)
    ensures var r := Ranges(b, c, since)[0]; EventSets.Sorted(r) && all == r[Late(r, until)..]
  {
    hide KeysFor, KeysOf, TakeSince, Before, NotLate, Late;
    var r := Ranges(b, c, since)[0];
    var p := Late(r, until);
    TakeSinceAre(Bucket(b, KeysFor(c)[0]), From(since));
    LateComeFirst(r, until);
    var late := r[p..];
    assert forall i :: 0 <= i < |late| ==> late[i] == r[p + i];
    forall e ensures e in all <==> e in late {
      assert e in r <==> Stored(byId, e) && KeysFor(c)[0] in KeysOf(e) && e.createdAt >= From(since);
      if e in r && NotLate(e, until) {
        var i :| 0 <= i < |r| && r[i] == e;
        assert late[i - p] == e;
      }
      if e in late {
        var i :| 0 <= i < |late| && late[i] == e;
        assert r[p + i] == e;
      }
    }
    EventSets.SortedIsUnique(all, late);
  }
}
