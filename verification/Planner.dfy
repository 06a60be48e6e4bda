/** The query planner: one index is chosen to fetch candidates, the remaining conditions are
    checked on each candidate (src/subscription.rs:278-468, src/store/index.rs:738-877). */
module Planner {
  import opened Events
  import opened Filters
  import opened IndexKeys
  import opened EventIndexes
  import EventSets
  import Oldest

  const USIZE_MAX: nat := 0xFFFF_FFFF_FFFF_FFFF

  // ---------------------------------------------------------------- index queries

  function Take(s: seq<Event>, n: nat): seq<Event> {
    if |s| <= n then s else s[..n]
  }

  function TakeSince(s: seq<Event>, since: nat): seq<Event> {
    if s == [] || s[0].createdAt < since then [] else [s[0]] + TakeSince(s[1..], since)
  }

  function Shards(b: Buckets): seq<seq<Event>> {
    seq(Oldest.OLDEST_SHARDS, i requires 0 <= i < Oldest.OLDEST_SHARDS => Bucket(b, ByOldest(i)))
  }

  // ---------------------------------------------------------------- the plan

  predicate NonEmpty<T>(o: Option<seq<T>>) {
    o.Some? && o.value != []
  }

  predicate HasValues(f: Filter, letter: char) {
    letter in f.tagFilters && f.tagFilters[letter] != []
  }

  predicate UsesIds(f: Filter) {
    NonEmpty(f.ids)
  }

  predicate UsesE(f: Filter) {
    NonEmpty(f.eTagsBytes) || HasValues(f, 'e')
  }

  predicate UsesP(f: Filter) {
    NonEmpty(f.pTagsBytes) || HasValues(f, 'p')
  }

  predicate IsOther(letter: char) {
    letter != 'e' && letter != 'p'
  }

  predicate UsesOther(f: Filter) {
    exists letter :: letter in f.tagFilters && IsOther(letter) && f.tagFilters[letter] != []
  }

  /** The decoded values of `#e` or `#p`: those parsed beforehand, or parsed on the spot. */
  function Queried(f: Filter, letter: char, bytes: Option<seq<Id>>): seq<Id> {
    if bytes.Some? then bytes.value
    else if letter in f.tagFilters then DecodeAll(f.tagFilters[letter])
    else []
  }

  datatype Plan =
    | ByIds(ids: seq<Id>)
    | ByKeys(keys: seq<BucketKey>)
    | ByAuthorsSince(authors: seq<Id>, since: nat)
    | Newest

  function PubkeyKeys(authors: seq<Id>): seq<BucketKey> {
    seq(|authors|, i requires 0 <= i < |authors| => ByPubkey(Fold(authors[i])))
  }

  function KindKeys(kinds: seq<nat>): seq<BucketKey> {
    seq(|kinds|, i requires 0 <= i < |kinds| => ByKind(kinds[i]))
  }

  function LetterKeys(letter: char, values: seq<string>): seq<BucketKey> {
    seq(|values|, i requires 0 <= i < |values| => ByTagOther(letter, values[i]))
  }

  /** `letter` is the generic letter the hash map happens to yield first. */
  function PlanFor(f: Filter, letter: char): Plan {
    if UsesIds(f) then ByIds(f.ids.value)
    else if UsesE(f) then ByKeys(ETagKeys(Queried(f, 'e', f.eTagsBytes)))
    else if UsesP(f) then ByKeys(PTagKeys(Queried(f, 'p', f.pTagsBytes)))
    else if UsesOther(f) then
      ByKeys(LetterKeys(letter, if letter in f.tagFilters then f.tagFilters[letter] else []))
    else if NonEmpty(f.authors) then
      if f.since.Some? then ByAuthorsSince(f.authors.value, f.since.value) else ByKeys(PubkeyKeys(f.authors.value))
    else if NonEmpty(f.kinds) then ByKeys(KindKeys(f.kinds.value))
    else Newest
  }

  predicate ValidLetter(f: Filter, letter: char) {
    UsesOther(f) ==> letter in f.tagFilters && IsOther(letter)
  }

  function FetchById(byId: map<Id, Event>, f: Filter, ids: seq<Id>): seq<Event> {
    if ids == [] then []
    else
      var n := |ids| - 1;
      var before := FetchById(byId, f, ids[..n]);
      if ids[n] in byId && InTime(f, byId[ids[n]]) then before + [byId[ids[n]]] else before
  }

  function FetchKeys(b: Buckets, keys: seq<BucketKey>, limit: nat): seq<Event> {
    if keys == [] then []
    else
      var n := |keys| - 1;
      FetchKeys(b, keys[..n], limit) + Take(Bucket(b, keys[n]), limit)
  }

  function FetchAuthors(b: Buckets, authors: seq<Id>, since: nat, limit: nat): seq<Event> {
    if authors == [] then []
    else
      var n := |authors| - 1;
      FetchAuthors(b, authors[..n], since, limit) + Take(TakeSince(Bucket(b, ByPubkey(Fold(authors[n]))), since), limit)
  }

  function FetchLimit(f: Filter): nat {
    if f.limit.Some? then f.limit.value else USIZE_MAX
  }

  function Candidates(byId: map<Id, Event>, b: Buckets, f: Filter, plan: Plan): seq<Event> {
    match plan
    case ByIds(ids) => FetchById(byId, f, ids)
    case ByKeys(keys) => FetchKeys(b, keys, FetchLimit(f))
    case ByAuthorsSince(authors, since) => FetchAuthors(b, authors, since, FetchLimit(f))
    case Newest => Oldest.GetNewest(Shards(b), FetchLimit(f))
  }

  /** The tag letters whose condition is not checked again on the candidates. */
  predicate Skips(f: Filter, letter: char) {
    || UsesIds(f)
    || (UsesE(f) && letter == 'e')
    || (UsesP(f) && letter == 'p')
    || (UsesOther(f) && IsOther(letter))
  }

  predicate PostMatches(f: Filter, e: Event) {
    && InTime(f, e) && KindMatches(f, e) && AuthorMatches(f, e)
    && forall letter :: letter in f.tagFilters ==> Skips(f, letter) || TagMatches(e, letter, f.tagFilters[letter])
  }

  predicate HasId(s: seq<Event>, id: Id) {
    exists x :: x in s && x.id == id
  }

  /** Candidates that pass, without repeats, in order of first appearance. */
  function Sift(f: Filter, cands: seq<Event>): seq<Event> {
    if cands == [] then []
    else
      var n := |cands| - 1;
      var before := Sift(f, cands[..n]);
      if PostMatches(f, cands[n]) && !HasId(before, cands[n].id) then before + [cands[n]] else before
  }

  function Answer(byId: map<Id, Event>, b: Buckets, f: Filter, letter: char): seq<Event> {
    var results := Sift(f, Candidates(byId, b, f, PlanFor(f, letter)));
    if f.limit.Some? then Take(results, f.limit.value) else results
  }

  // ---------------------------------------------------------------- the program

  method FetchAllKeys(b: Buckets, keys: seq<BucketKey>, limit: nat) returns (cands: seq<Event>)
    ensures cands == FetchKeys(b, keys, limit)
  {
    cands := [];
    for n := 0 to |keys|
      invariant cands == FetchKeys(b, keys[..n], limit)
    {
      assert keys[..n + 1][..n] == keys[..n];
      cands := cands + Take(Bucket(b, keys[n]), limit);
    }
    assert keys[..|keys|] == keys;
  }

  method FetchAllIds(byId: map<Id, Event>, f: Filter, ids: seq<Id>) returns (cands: seq<Event>)
    ensures cands == FetchById(byId, f, ids)
  {
    cands := [];
    for n := 0 to |ids|
      invariant cands == FetchById(byId, f, ids[..n])
    {
      assert ids[..n + 1][..n] == ids[..n];
      if ids[n] in byId && InTime(f, byId[ids[n]]) {
        cands := cands + [byId[ids[n]]];
      }
    }
    assert ids[..|ids|] == ids;
  }

  method FetchAllAuthors(b: Buckets, authors: seq<Id>, since: nat, limit: nat) returns (cands: seq<Event>)
    ensures cands == FetchAuthors(b, authors, since, limit)
  {
    cands := [];
    for n := 0 to |authors|
      invariant cands == FetchAuthors(b, authors[..n], since, limit)
    {
      assert authors[..n + 1][..n] == authors[..n];
      cands := cands + Take(TakeSince(Bucket(b, ByPubkey(Fold(authors[n]))), since), limit);
    }
    assert authors[..|authors|] == authors;
  }

  /** The final loop, with its set of ids already returned. */
  method SiftAll(f: Filter, cands: seq<Event>) returns (results: seq<Event>)
    ensures results == Sift(f, cands)
  {
    results := [];
    var seen: set<Id> := {};
    for n := 0 to |cands|
      invariant results == Sift(f, cands[..n])
      invariant forall id :: id in seen <==> HasId(results, id)
    {
      assert cands[..n + 1][..n] == cands[..n];
      var e := cands[n];
      if PostMatches(f, e) && e.id !in seen {
        ghost var before := results;
        seen := seen + {e.id};
        results := results + [e];
        forall id ensures HasId(results, id) <==> HasId(before, id) || id == e.id {
          if HasId(before, id) {
            var x :| x in before && x.id == id;
            assert x in results;
          }
          if id == e.id { assert e in results; }
        }
      }
    }
    assert cands[..|cands|] == cands;
  }

  method QueryFilter(index: EventIndex, f: Filter) returns (results: seq<Event>, letter: char)
    requires index.Valid()
    ensures ValidLetter(f, letter)
    ensures results == Answer(index.byId, index.buckets, f, letter)
  {
    hide EventIndex.Valid, Sift, FetchKeys, FetchById, FetchAuthors, PostMatches, PlanFor, Shards, Oldest.GetNewest,
      FetchLimit;
    letter := 't';
    if UsesOther(f) {
      letter :| letter in f.tagFilters && IsOther(letter);
    }
    var plan := PlanFor(f, letter);
    var cands;
    match plan {
      case ByIds(ids) => cands := FetchAllIds(index.byId, f, ids);
      case ByKeys(keys) => cands := FetchAllKeys(index.buckets, keys, FetchLimit(f));
      case ByAuthorsSince(authors, since) => cands := FetchAllAuthors(index.buckets, authors, since, FetchLimit(f));
      case Newest => cands := Oldest.CollectNewest(Shards(index.buckets), FetchLimit(f));
    }
    results := SiftAll(f, cands);
    if f.limit.Some? && |results| > f.limit.value {
      results := results[..f.limit.value];
    }
  }

  // ---------------------------------------------------------------- what is fetched

  /** What the chosen index is asked for. */
  ghost predicate Planned(f: Filter, plan: Plan, e: Event) {
    match plan
    case ByIds(ids) => e.id in ids && InTime(f, e)
    case ByKeys(keys) => exists k :: k in keys && k in KeysOf(e)
    case ByAuthorsSince(authors, since) => e.createdAt >= since && exists a :: a in authors && Fold(a) == Fold(e.pubkey)
    case Newest => true
  }

  lemma BucketFits(cat: Catalogue, byId: map<Id, Event>, b: Buckets, k: BucketKey)
    requires OneEventPerId(cat, byId) && Filed(byId, b)
    ensures |Bucket(b, k)| <= |byId|
  {
    var s := Bucket(b, k);
    EventSets.SortedHasNoRepeats(s);
    var ids: seq<Id> := seq(|s|, i requires 0 <= i < |s| => s[i].id);
    var idSet: set<Id> := set id | id in ids;
    forall i, j | 0 <= i < j < |ids| ensures ids[i] != ids[j] {
      assert s[i] in s && s[j] in s;
    }
    EventSets.DistinctCount(ids);
    forall id | id in ids ensures id in byId.Keys {
      var i :| 0 <= i < |ids| && ids[i] == id;
      assert s[i] in s;
    }
    Oldest.SubsetCount(idSet, byId.Keys);
    assert |idSet| == |ids| == |s|;
  }

  lemma {:induction false} FetchByIdAre(cat: Catalogue, byId: map<Id, Event>, f: Filter, ids: seq<Id>)
    requires OneEventPerId(cat, byId)
    ensures forall e :: e in FetchById(byId, f, ids) <==> Stored(byId, e) && e.id in ids && InTime(f, e)
  {
    if ids != [] {
      FetchByIdAre(cat, byId, f, ids[..|ids| - 1]);
      assert ids == ids[..|ids| - 1] + [ids[|ids| - 1]];
    }
  }

  lemma {:induction false} FetchKeysAre(cat: Catalogue, byId: map<Id, Event>, b: Buckets, keys: seq<BucketKey>,
                                        limit: nat)
    requires OneEventPerId(cat, byId) && Filed(byId, b) && |byId| <= limit
    ensures forall e :: e in FetchKeys(b, keys, limit) <==> Stored(byId, e) && exists k :: k in keys && k in KeysOf(e)
  {
    hide KeysOf;
    if keys != [] {
      var n := |keys| - 1;
      FetchKeysAre(cat, byId, b, keys[..n], limit);
      BucketFits(cat, byId, b, keys[n]);
      assert forall k :: k in keys <==> k in keys[..n] || k == keys[n];
    }
  }

  lemma {:induction false} TakeSinceIsPrefix(s: seq<Event>, since: nat)
    ensures var n := |TakeSince(s, since)|;
            && n <= |s| && TakeSince(s, since) == s[..n]
            && (forall i :: 0 <= i < n ==> s[i].createdAt >= since)
            && (n < |s| ==> s[n].createdAt < since)
  {
    if s != [] { TakeSinceIsPrefix(s[1..], since); }
  }

  lemma TakeSinceAre(s: seq<Event>, since: nat)
    requires EventSets.Sorted(s)
    ensures forall e :: e in TakeSince(s, since) <==> e in s && e.createdAt >= since
    ensures EventSets.Sorted(TakeSince(s, since)) && |TakeSince(s, since)| <= |s|
  {
    hide TakeSince;
    TakeSinceIsPrefix(s, since);
    var n := |TakeSince(s, since)|;
    forall e | e in s && e.createdAt >= since ensures e in s[..n] {
      var i :| 0 <= i < |s| && s[i] == e;
      assert n < i ==> Before(s[n], s[i]);
    }
  }

  lemma {:induction false} FetchAuthorsAre(cat: Catalogue, byId: map<Id, Event>, b: Buckets, authors: seq<Id>,
                                           since: nat, limit: nat)
    requires OneEventPerId(cat, byId) && Filed(byId, b) && |byId| <= limit
    ensures forall e :: e in FetchAuthors(b, authors, since, limit) <==>
              Stored(byId, e) && e.createdAt >= since && exists a :: a in authors && Fold(a) == Fold(e.pubkey)
  {
    hide Fold;
    if authors != [] {
      var n := |authors| - 1;
      var key := ByPubkey(Fold(authors[n]));
      FetchAuthorsAre(cat, byId, b, authors[..n], since, limit);
      BucketFits(cat, byId, b, key);
      TakeSinceAre(Bucket(b, key), since);
      assert forall a :: a in authors <==> a in authors[..n] || a == authors[n];
      forall e ensures e in Bucket(b, key) <==> Stored(byId, e) && Fold(e.pubkey) == Fold(authors[n]) {
        KeysAreBelonging(e, key);
      }
    }
  }

  lemma TotalIsCount(cat: Catalogue, byId: map<Id, Event>, b: Buckets)
    requires OneEventPerId(cat, byId) && Filed(byId, b)
    ensures Oldest.Total(Shards(b)) == |byId|
  {
    ShardsHoldEverything(cat, byId, b, Shards(b));
    CountShards(cat, Shards(b));
  }

  lemma CountShards(cat: Catalogue, shards: seq<seq<Event>>)
    requires Oldest.ValidShards(cat, shards)
    ensures Oldest.Total(shards) == |Oldest.All(shards)|
  {
    var es := Oldest.Flatten(shards);
    Oldest.FlattenIs(cat, shards);
    EventSets.DistinctCount(es);
    assert (set x | x in es) == Oldest.All(shards);
  }

  /** Without a limit, the candidates are exactly the stored events the plan asks for. */
  lemma CandidatesAre(cat: Catalogue, byId: map<Id, Event>, b: Buckets, f: Filter, plan: Plan)
    requires OneEventPerId(cat, byId) && Filed(byId, b) && |byId| <= USIZE_MAX && f.limit.None?
    ensures forall e :: e in Candidates(byId, b, f, plan) <==> Stored(byId, e) && Planned(f, plan, e)
  {
    match plan {
      case ByIds(ids) => FetchByIdAre(cat, byId, f, ids);
      case ByKeys(keys) => FetchKeysAre(cat, byId, b, keys, USIZE_MAX);
      case ByAuthorsSince(authors, since) => FetchAuthorsAre(cat, byId, b, authors, since, USIZE_MAX);
      case Newest =>
        TotalIsCount(cat, byId, b);
        ShardsHoldEverything(cat, byId, b, Shards(b));
        Oldest.GetNewestWithRoomForAll(cat, Shards(b), USIZE_MAX);
    }
  }

  // ---------------------------------------------------------------- what is answered

  ghost predicate Distinct(s: seq<Event>) {
    forall i, j :: 0 <= i < j < |s| ==> s[i].id != s[j].id
  }

  lemma {:induction false} SiftAre(cat: Catalogue, f: Filter, cands: seq<Event>)
    requires forall e :: e in cands ==> Genuine(cat, e)
    ensures forall e :: e in Sift(f, cands) <==> e in cands && PostMatches(f, e)
    ensures Distinct(Sift(f, cands))
  {
    hide PostMatches;
    if cands != [] {
      var n := |cands| - 1;
      SiftAre(cat, f, cands[..n]);
      var before, e := Sift(f, cands[..n]), cands[n];
      assert cands == cands[..n] + [e];
      assert Genuine(cat, e);
      if HasId(before, e.id) {
        var x :| x in before && x.id == e.id;
        assert x == e;
      } else {
        assert forall i :: 0 <= i < |before| ==> before[i] in before;
      }
    }
  }

  /** For every filter without a limit: the answer holds, once each, exactly the stored events
      that the plan asks for and that pass the checks made afterwards. */
  lemma AnswerIs(cat: Catalogue, byId: map<Id, Event>, b: Buckets, f: Filter, letter: char)
    requires OneEventPerId(cat, byId) && Filed(byId, b) && |byId| <= USIZE_MAX && f.limit.None?
    ensures forall e :: e in Answer(byId, b, f, letter) <==>
              Stored(byId, e) && Planned(f, PlanFor(f, letter), e) && PostMatches(f, e)
    ensures Distinct(Answer(byId, b, f, letter))
  {
    hide Candidates, PlanFor, Planned, PostMatches, Sift;
    var plan := PlanFor(f, letter);
    CandidatesAre(cat, byId, b, f, plan);
    SiftAre(cat, f, Candidates(byId, b, f, plan));
  }

  // ---------------------------------------------------------------- agreement with a scan

  /** What a filter means: all its conditions hold, with `#e` and `#p` values compared as the
      32 bytes they decode to. */
  ghost predicate LetterSatisfied(e: Event, letter: char, values: seq<string>) {
    if letter == 'e' then exists x :: x in DecodeAll(values) && x in TagIds(e.tags, "e")
    else if letter == 'p' then exists x :: x in DecodeAll(values) && x in TagIds(e.tags, "p")
    else TagMatches(e, letter, values)
  }

  ghost predicate Satisfies(f: Filter, e: Event) {
    && InTime(f, e) && KindMatches(f, e) && IdMatches(f, e) && AuthorMatches(f, e)
    && forall letter :: letter in f.tagFilters ==> LetterSatisfied(e, letter, f.tagFilters[letter])
  }

  /** The byte fields hold the decoded values of the tag fields, if they were filled in at all. */
  ghost predicate Parsed(f: Filter) {
    && (f.eTagsBytes.Some? ==> 'e' in f.tagFilters && f.eTagsBytes.value == DecodeAll(f.tagFilters['e']))
    && (f.pTagsBytes.Some? ==> 'p' in f.tagFilters && f.pTagsBytes.value == DecodeAll(f.tagFilters['p']))
  }

  /** No queried `#e` or `#p` value shares its fold with a different value of a stored event. */
  ghost predicate NoCollision(f: Filter, e: Event) {
    && (forall x, y :: x in Queried(f, 'e', f.eTagsBytes) && y in TagIds(e.tags, "e") && Fold(x) == Fold(y) ==> x == y)
    && (forall x, y :: x in Queried(f, 'p', f.pTagsBytes) && y in TagIds(e.tags, "p") && Fold(x) == Fold(y) ==> x == y)
  }

  /** The tag letter whose condition the chosen index stands for. */
  predicate LeadingLetter(f: Filter, letter: char, l: char) {
    if UsesIds(f) then false
    else if UsesE(f) then l == 'e'
    else if UsesP(f) then l == 'p'
    else UsesOther(f) && l == letter
  }

  /** The filter the planner in fact answers: an empty list of ids is no condition, and a tag
      letter counts if the index stands for it or its condition is checked afterwards. */
  function Effective(f: Filter, letter: char): Filter {
    f.(ids := if UsesIds(f) then f.ids else None,
       tagFilters := map l | l in f.tagFilters && (LeadingLetter(f, letter, l) || !Skips(f, l)) :: f.tagFilters[l])
  }

  /** Some value and some tag of the event share their fold: how the index compares `#e` and `#p`. */
  ghost predicate FoldShared(xs: seq<Id>, ys: seq<Id>) {
    exists x, y :: x in xs && y in ys && Fold(x) == Fold(y)
  }

  /** A leading letter's condition as the index checks it. */
  ghost predicate LetterFound(e: Event, letter: char, values: seq<string>) {
    if letter == 'e' then FoldShared(DecodeAll(values), TagIds(e.tags, "e"))
    else if letter == 'p' then FoldShared(DecodeAll(values), TagIds(e.tags, "p"))
    else TagMatches(e, letter, values)
  }

  lemma ETagsAgree(f: Filter, e: Event)
    requires Parsed(f) && UsesE(f)
    ensures 'e' in f.tagFilters
    ensures (exists k :: k in ETagKeys(Queried(f, 'e', f.eTagsBytes)) && k in KeysOf(e)) <==>
            LetterFound(e, 'e', f.tagFilters['e'])
  {
    hide KeysOf, Fold, ETagKeys;
    var xs, ys := Queried(f, 'e', f.eTagsBytes), TagIds(e.tags, "e");
    assert xs == DecodeAll(f.tagFilters['e']);
    if x, y :| x in xs && y in ys && Fold(x) == Fold(y) {
      ETagKeysAre(xs, ByTagE(Fold(x)));
      KeysAreBelonging(e, ByTagE(Fold(x)));
    }
    if k :| k in ETagKeys(xs) && k in KeysOf(e) {
      ETagKeysAre(xs, k);
      KeysAreBelonging(e, k);
    }
  }

  lemma PTagsAgree(f: Filter, e: Event)
    requires Parsed(f) && UsesP(f)
    ensures 'p' in f.tagFilters
    ensures (exists k :: k in PTagKeys(Queried(f, 'p', f.pTagsBytes)) && k in KeysOf(e)) <==>
            LetterFound(e, 'p', f.tagFilters['p'])
  {
    hide KeysOf, Fold, PTagKeys;
    var xs, ys := Queried(f, 'p', f.pTagsBytes), TagIds(e.tags, "p");
    assert xs == DecodeAll(f.tagFilters['p']);
    if x, y :| x in xs && y in ys && Fold(x) == Fold(y) {
      ETagKeysAre(xs, ByTagP(Fold(x)));
      KeysAreBelonging(e, ByTagP(Fold(x)));
    }
    if k :| k in PTagKeys(xs) && k in KeysOf(e) {
      ETagKeysAre(xs, k);
      KeysAreBelonging(e, k);
    }
  }

  lemma OtherTagsAgree(letter: char, values: seq<string>, e: Event)
    requires IsOther(letter)
    ensures (exists k :: k in LetterKeys(letter, values) && k in KeysOf(e)) <==> LetterFound(e, letter, values)
  {
    hide KeysOf;
    var keys := LetterKeys(letter, values);
    if TagMatches(e, letter, values) {
      var t :| t in e.tags && IsLetterTag(t, letter) && t.Value().Some? && t.Value().value in values;
      var i :| 0 <= i < |values| && values[i] == t.Value().value;
      assert keys[i] in keys;
      assert HasTag(e, letter, values[i]);
      KeysAreBelonging(e, keys[i]);
    }
    if k :| k in keys && k in KeysOf(e) { KeysAreBelonging(e, k); }
  }

  /** A condition checked afterwards is checked for what it means. */
  lemma CheckedLettersAgree(f: Filter, l: char, e: Event)
    requires Parsed(f) && l in f.tagFilters && !Skips(f, l)
    ensures TagMatches(e, l, f.tagFilters[l]) <==> LetterSatisfied(e, l, f.tagFilters[l])
  {
    if l == 'e' || l == 'p' {
      assert f.tagFilters[l] == [] && DecodeAll([]) == [];
    }
  }

  lemma AuthorsAndKindsAgree(f: Filter, e: Event)
    ensures NonEmpty(f.authors) && AuthorMatches(f, e) ==>
              exists k :: k in PubkeyKeys(f.authors.value) && k in KeysOf(e)
    ensures NonEmpty(f.kinds) && KindMatches(f, e) ==> exists k :: k in KindKeys(f.kinds.value) && k in KeysOf(e)
  {
    hide KeysOf, Fold;
    if NonEmpty(f.authors) && e.pubkey in f.authors.value {
      var keys := PubkeyKeys(f.authors.value);
      var i :| 0 <= i < |f.authors.value| && f.authors.value[i] == e.pubkey;
      assert keys[i] in keys;
      KeysAreBelonging(e, keys[i]);
    }
    if NonEmpty(f.kinds) && e.kind in f.kinds.value {
      var keys := KindKeys(f.kinds.value);
      var i :| 0 <= i < |f.kinds.value| && f.kinds.value[i] == e.kind;
      assert keys[i] in keys;
      KeysAreBelonging(e, keys[i]);
    }
  }

  /** The conditions other than tags that the plan stands for, and the leading tag. */
  ghost predicate LedBy(f: Filter, letter: char, e: Event) {
    && (UsesIds(f) ==> e.id in f.ids.value)
    && forall l :: l in f.tagFilters && LeadingLetter(f, letter, l) ==> LetterFound(e, l, f.tagFilters[l])
  }

  lemma PlanMeans(f: Filter, letter: char, e: Event)
    requires Parsed(f) && ValidLetter(f, letter)
    requires InTime(f, e) && KindMatches(f, e) && AuthorMatches(f, e)
    ensures Planned(f, PlanFor(f, letter), e) <==> LedBy(f, letter, e)
  {
    hide KeysOf, Fold, ETagKeys, PTagKeys, LetterKeys, PubkeyKeys, KindKeys, Parsed, LetterFound, Queried;
    if UsesIds(f) {
    } else if UsesE(f) {
      ETagsAgree(f, e);
    } else if UsesP(f) {
      PTagsAgree(f, e);
    } else if UsesOther(f) {
      OtherTagsAgree(letter, f.tagFilters[letter], e);
    } else {
      AuthorsAndKindsAgree(f, e);
    }
  }

  /** What the planner answers of the effective filter: all its conditions, the leading `#e` or
      `#p` one compared by fold. */
  ghost predicate Answers(f: Filter, letter: char, e: Event) {
    var g := Effective(f, letter);
    && InTime(g, e) && KindMatches(g, e) && IdMatches(g, e) && AuthorMatches(g, e)
    && forall l :: l in g.tagFilters ==>
         if LeadingLetter(f, letter, l) then LetterFound(e, l, g.tagFilters[l])
         else LetterSatisfied(e, l, g.tagFilters[l])
  }

  lemma ChecksMean(f: Filter, letter: char, e: Event)
    requires Parsed(f) && ValidLetter(f, letter)
    ensures PostMatches(f, e) && LedBy(f, letter, e) <==> Answers(f, letter, e)
  {
    hide LetterSatisfied, LetterFound, TagMatches, Parsed;
    forall l | l in f.tagFilters && !Skips(f, l)
      ensures TagMatches(e, l, f.tagFilters[l]) <==> LetterSatisfied(e, l, f.tagFilters[l])
    {
      CheckedLettersAgree(f, l, e);
    }
    var g := Effective(f, letter);
    assert forall l :: l in g.tagFilters ==> g.tagFilters[l] == f.tagFilters[l];
    LeadingIsSkipped(f, letter);
  }

  lemma LeadingIsSkipped(f: Filter, letter: char)
    ensures forall l :: LeadingLetter(f, letter, l) && ValidLetter(f, letter) ==> Skips(f, l)
  {
  }

  /** For every filter without a limit and every store, fold collisions included, the answer holds,
      once each, exactly the stored events that the planner takes to satisfy the effective filter. */
  lemma PlannerAnswers(cat: Catalogue, byId: map<Id, Event>, b: Buckets, f: Filter, letter: char)
    requires OneEventPerId(cat, byId) && Filed(byId, b) && |byId| <= USIZE_MAX
    requires f.limit.None? && Parsed(f) && ValidLetter(f, letter)
    ensures forall e :: e in Answer(byId, b, f, letter) <==> Stored(byId, e) && Answers(f, letter, e)
    ensures Distinct(Answer(byId, b, f, letter))
  {
    hide Answer, Planned, PlanFor, PostMatches, LedBy, Effective, Parsed, ValidLetter, Answers;
    AnswerIs(cat, byId, b, f, letter);
    forall e | Stored(byId, e)
      ensures Planned(f, PlanFor(f, letter), e) && PostMatches(f, e) <==> Answers(f, letter, e)
    {
      ChecksMean(f, letter, e);
      if PostMatches(f, e) {
        PostChecks(f, e);
        PlanMeans(f, letter, e);
      }
    }
  }

  /** Comparing by fold never misses an event, and adds none unless folds collide. */
  lemma AnswersAreSatisfied(f: Filter, letter: char, e: Event)
    requires Parsed(f)
    ensures Satisfies(Effective(f, letter), e) ==> Answers(f, letter, e)
    ensures NoCollision(f, e) ==> (Answers(f, letter, e) <==> Satisfies(Effective(f, letter), e))
  {
    hide Fold, DecodeAll, TagIds;
    var g := Effective(f, letter);
    forall l | l in g.tagFilters
      ensures LetterSatisfied(e, l, g.tagFilters[l]) ==> LetterFound(e, l, g.tagFilters[l])
      ensures NoCollision(f, e) && LeadingLetter(f, letter, l) && LetterFound(e, l, g.tagFilters[l]) ==>
                LetterSatisfied(e, l, g.tagFilters[l])
    {
      assert g.tagFilters[l] == f.tagFilters[l];
    }
  }

  /** Without collisions, the answer is that of a scan with the effective filter: exactly the stored
      events that satisfy it, each once. */
  lemma PlannerAnswersTheEffectiveFilter(cat: Catalogue, byId: map<Id, Event>, b: Buckets, f: Filter, letter: char)
    requires OneEventPerId(cat, byId) && Filed(byId, b) && |byId| <= USIZE_MAX
    requires f.limit.None? && Parsed(f) && ValidLetter(f, letter)
    ensures forall e :: Stored(byId, e) && Satisfies(Effective(f, letter), e) ==> e in Answer(byId, b, f, letter)
    ensures (forall e :: Stored(byId, e) ==> NoCollision(f, e)) ==>
              forall e :: e in Answer(byId, b, f, letter) <==> Stored(byId, e) && Satisfies(Effective(f, letter), e)
    ensures Distinct(Answer(byId, b, f, letter))
  {
    hide Answer, Satisfies, NoCollision, Effective, Parsed, ValidLetter, Answers;
    PlannerAnswers(cat, byId, b, f, letter);
    forall e | Stored(byId, e)
      ensures Satisfies(Effective(f, letter), e) ==> Answers(f, letter, e)
      ensures NoCollision(f, e) ==> (Answers(f, letter, e) <==> Satisfies(Effective(f, letter), e))
    {
      AnswersAreSatisfied(f, letter, e);
    }
  }

  lemma PostChecks(f: Filter, e: Event)
    requires PostMatches(f, e)
    ensures InTime(f, e) && KindMatches(f, e) && AuthorMatches(f, e)
  {
  }

  /** When no condition is lost: ids are absent, or given and the only condition besides kinds,
      authors and times; and of `#e`, `#p` and the other letters at most one kind of tag has
      values, the other letters being at most one. */
  predicate NothingDropped(f: Filter) {
    && f.ids != Some([])
    && (UsesIds(f) ==> f.tagFilters == map[])
    && !(UsesE(f) && UsesP(f)) && !(UsesE(f) && UsesOther(f)) && !(UsesP(f) && UsesOther(f))
    && (UsesOther(f) ==> forall a, c :: a in f.tagFilters && c in f.tagFilters && IsOther(a) && IsOther(c) ==> a == c)
  }

  /** Ids without tags, or no ids and at most one tag letter, are such filters. */
  lemma OneLetterDropsNothing(f: Filter)
    requires Parsed(f)
    requires || (UsesIds(f) && f.tagFilters == map[])
             || (f.ids.None? && forall a, c :: a in f.tagFilters && c in f.tagFilters ==> a == c)
    ensures NothingDropped(f)
  {
  }

  /** The planner equals a scan: a filter that drops nothing is answered with every stored event
      that satisfies it, each once, and, unless folds collide, with nothing else. */
  lemma PlannerEqualsScan(cat: Catalogue, byId: map<Id, Event>, b: Buckets, f: Filter, letter: char)
    requires OneEventPerId(cat, byId) && Filed(byId, b) && |byId| <= USIZE_MAX
    requires f.limit.None? && Parsed(f) && NothingDropped(f) && ValidLetter(f, letter)
    ensures forall e :: Stored(byId, e) && Satisfies(f, e) ==> e in Answer(byId, b, f, letter)
    ensures (forall e :: Stored(byId, e) ==> NoCollision(f, e)) ==>
              forall e :: e in Answer(byId, b, f, letter) <==> Stored(byId, e) && Satisfies(f, e)
    ensures Distinct(Answer(byId, b, f, letter))
  {
    hide Answer, Satisfies, NoCollision;
    PlannerAnswersTheEffectiveFilter(cat, byId, b, f, letter);
    EffectiveIsAll(f, letter);
  }

  /** Every queried `#e` or `#p` value agrees with every stored one on one half of their bytes. */
  ghost predicate HalvesShared(f: Filter, e: Event) {
    && (forall x, y :: x in Queried(f, 'e', f.eTagsBytes) && y in TagIds(e.tags, "e") ==> ShareHalf(x, y))
    && (forall x, y :: x in Queried(f, 'p', f.pTagsBytes) && y in TagIds(e.tags, "p") ==> ShareHalf(x, y))
  }

  lemma SharedHalvesDoNotCollide(f: Filter, e: Event)
    requires HalvesShared(f, e)
    ensures NoCollision(f, e)
  {
    hide Fold, ShareHalf, Queried, TagIds;
    forall x, y | ShareHalf(x, y) && Fold(x) == Fold(y) ensures x == y { FoldSeparatesHalves(x, y); }
  }

  /** Where the values share a half the folds cannot collide, and the planner equals a scan. */
  lemma PlannerEqualsScanOnSharedHalves(cat: Catalogue, byId: map<Id, Event>, b: Buckets, f: Filter, letter: char)
    requires OneEventPerId(cat, byId) && Filed(byId, b) && |byId| <= USIZE_MAX
    requires f.limit.None? && Parsed(f) && NothingDropped(f) && ValidLetter(f, letter)
    requires forall e :: Stored(byId, e) ==> HalvesShared(f, e)
    ensures forall e :: e in Answer(byId, b, f, letter) <==> Stored(byId, e) && Satisfies(f, e)
  {
    hide Answer, Satisfies, NoCollision, HalvesShared, Parsed, NothingDropped, ValidLetter, Filed;
    PlannerEqualsScan(cat, byId, b, f, letter);
    forall e | Stored(byId, e) ensures NoCollision(f, e) { SharedHalvesDoNotCollide(f, e); }
  }

  /** A filter fresh from a request has `Parsed` once its hex values are decoded, and means the same. */
  lemma PreparedIsParsed(f: Filter)
    requires f.eTagsBytes.None? && f.pTagsBytes.None?
    ensures Parsed(ParseHexValues(f)) && forall e :: Satisfies(ParseHexValues(f), e) <==> Satisfies(f, e)
    ensures ParseHexValues(f).eTagsBytes.Some? <==>
            'e' in f.tagFilters && exists v :: v in f.tagFilters['e'] && ParseHex32(v).Some?
    ensures ParseHexValues(f).pTagsBytes.Some? <==>
            'p' in f.tagFilters && exists v :: v in f.tagFilters['p'] && ParseHex32(v).Some?
  {
    hide ParseHex32, DecodeAll;
    if 'e' in f.tagFilters { SomeDecodes(f.tagFilters['e']); }
    if 'p' in f.tagFilters { SomeDecodes(f.tagFilters['p']); }
  }

  lemma SomeDecodes(values: seq<string>)
    ensures DecodeAll(values) != [] <==> exists v :: v in values && ParseHex32(v).Some?
  {
    hide ParseHex32, DecodeAll;
    if DecodeAll(values) != [] { DecodeAllHas(values, DecodeAll(values)[0]); }
    if v :| v in values && ParseHex32(v).Some? { DecodeAllHas(values, ParseHex32(v).value); }
  }

  lemma EffectiveIsAll(f: Filter, letter: char)
    requires Parsed(f) && ValidLetter(f, letter)
    ensures Effective(f, letter) == f <==> NothingDropped(f)
  {
    var g := Effective(f, letter);
    if NothingDropped(f) {
      assert g.tagFilters == f.tagFilters;
    }
  }

  // ---------------------------------------------------------------- dropped conditions

  /** The tags named by one of the letters. */
  function Only(tags: seq<Tag>, letters: set<char>): seq<Tag> {
    if tags == [] then []
    else if |tags[0].name| == 1 && tags[0].name[0] in letters then [tags[0]] + Only(tags[1..], letters)
    else Only(tags[1..], letters)
  }

  lemma {:induction false} OnlyAre(tags: seq<Tag>, letters: set<char>, t: Tag)
    ensures t in Only(tags, letters) <==> t in tags && |t.name| == 1 && t.name[0] in letters
  {
    if tags != [] {
      OnlyAre(tags[1..], letters, t);
      assert t in tags <==> t == tags[0] || t in tags[1..];
    }
  }

  lemma LetterAfterOnly(e: Event, letters: set<char>, l: char, values: seq<string>)
    ensures LetterSatisfied(e.(tags := Only(e.tags, letters)), l, values) <==>
            l in letters && LetterSatisfied(e, l, values)
  {
    hide ParseHex32, DecodeAll, TagIds;
    var e' := e.(tags := Only(e.tags, letters));
    forall t ensures t in e'.tags && t.name == [l] <==> t in e.tags && t.name == [l] && l in letters {
      OnlyAre(e.tags, letters, t);
    }
    if l == 'e' || l == 'p' {
      forall x ensures x in TagIds(e'.tags, [l]) <==> l in letters && x in TagIds(e.tags, [l]) {
        TagIdsAreTheDecodedValues(e'.tags, [l], x);
        TagIdsAreTheDecodedValues(e.tags, [l], x);
      }
    }
  }

  lemma DroppedConditionFails(f: Filter, letter: char, e: Event) returns (wrong: Event)
    requires Parsed(f) && ValidLetter(f, letter) && !NothingDropped(f)
    requires Satisfies(Effective(f, letter), e)
    ensures Satisfies(Effective(f, letter), wrong) && !Satisfies(f, wrong)
  {
    hide LetterSatisfied, Parsed, NothingDropped, ValidLetter;
    var g := Effective(f, letter);
    wrong := e.(tags := Only(e.tags, g.tagFilters.Keys));
    forall l | l in f.tagFilters
      ensures LetterSatisfied(wrong, l, f.tagFilters[l]) <==>
              l in g.tagFilters && LetterSatisfied(e, l, f.tagFilters[l])
    {
      LetterAfterOnly(e, g.tagFilters.Keys, l, f.tagFilters[l]);
    }
    EffectiveIsAll(f, letter);
    if f.ids != Some([]) {
      assert g.ids == f.ids;
      assert g.tagFilters != f.tagFilters;
      assert exists l :: l in f.tagFilters && l !in g.tagFilters;
    }
  }

  /** A store that holds one event. */
  function OnlyEvent(e: Event): map<Id, Event> {
    map[e.id := e]
  }

  function OnlyBuckets(e: Event): Buckets {
    map k | k in KeysOf(e) :: [e]
  }

  lemma OnlyEventIsFiled(e: Event)
    ensures OneEventPerId(id => e, OnlyEvent(e)) && Filed(OnlyEvent(e), OnlyBuckets(e)) && |OnlyEvent(e)| == 1
  {
    hide KeysOf;
  }

  /** The condition is exact: if something is dropped, and some event satisfies the effective filter,
      then there is a store that answers an event the filter does not match. */
  lemma DroppedConditionShows(f: Filter, letter: char, e: Event) returns (wrong: Event)
    requires f.limit.None? && Parsed(f) && ValidLetter(f, letter) && !NothingDropped(f)
    requires Satisfies(Effective(f, letter), e)
    ensures OneEventPerId(id => wrong, OnlyEvent(wrong)) && Filed(OnlyEvent(wrong), OnlyBuckets(wrong))
    ensures wrong in Answer(OnlyEvent(wrong), OnlyBuckets(wrong), f, letter) && !Satisfies(f, wrong)
  {
    hide Answer, Satisfies, NoCollision, Effective, Parsed, ValidLetter, NothingDropped, OnlyBuckets, Filed;
    wrong := DroppedConditionFails(f, letter, e);
    OnlyEventIsFiled(wrong);
    PlannerAnswersTheEffectiveFilter(id => wrong, OnlyEvent(wrong), OnlyBuckets(wrong), f, letter);
  }
}
