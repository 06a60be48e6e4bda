/** `BTreeSet<EventRef>`: a set of events iterated newest first (src/store/index.rs:110-152).
    The set is held as the strictly sorted sequence that iteration yields. */
module EventSets {
  import opened Events

  ghost predicate Sorted(s: seq<Event>) {
    forall i, j :: 0 <= i < j < |s| ==> Before(s[i], s[j])
  }

  /** No element is another event under `e`'s id. */
  ghost predicate Agrees(s: seq<Event>, e: Event) {
    forall x :: x in s && x.id == e.id ==> x == e
  }

  function Insert(s: seq<Event>, e: Event): seq<Event> {
    if s == [] then [e]
    else if Before(e, s[0]) then [e] + s
    else if Before(s[0], e) then [s[0]] + Insert(s[1..], e)
    else s
  }

  function Remove(s: seq<Event>, e: Event): seq<Event> {
    if s == [] then []
    else if Before(e, s[0]) then s
    else if Before(s[0], e) then [s[0]] + Remove(s[1..], e)
    else s[1..]
  }

  lemma SortedCons(x: Event, s: seq<Event>)
    requires Sorted(s)
    requires s != [] ==> Before(x, s[0])
    ensures Sorted([x] + s)
  {
    var t := [x] + s;
    forall i, j | 0 <= i < j < |t| ensures Before(t[i], t[j]) {
      if i == 0 && j > 1 { BeforeTransitive(x, s[0], s[j - 1]); }
    }
  }

  lemma SortedHasNoRepeats(s: seq<Event>)
    requires Sorted(s)
    ensures forall i, j :: 0 <= i < j < |s| ==> s[i] != s[j]
  {
    forall i, j | 0 <= i < j < |s| ensures s[i] != s[j] { BeforeTotal(s[i], s[j]); }
  }

  /** Insertion keeps the order and adds exactly `e`. */
  lemma {:induction false} InsertKeepsOrder(s: seq<Event>, e: Event)
    requires Sorted(s) && Agrees(s, e)
    ensures Sorted(Insert(s, e))
    ensures forall x :: x in Insert(s, e) <==> x in s || x == e
    ensures |Insert(s, e)| == |s| + (if e in s then 0 else 1)
  {
    if s == [] {
    } else if Before(e, s[0]) {
      SortedCons(e, s);
      forall x | x in s ensures x != e {
        var i :| 0 <= i < |s| && s[i] == x;
        if i > 0 { BeforeTransitive(e, s[0], s[i]); }
        BeforeTotal(e, s[i]);
      }
    } else if Before(s[0], e) {
      var t := s[1..];
      InsertKeepsOrder(t, e);
      BeforeTotal(s[0], e);
      assert s == [s[0]] + t;
      SortedCons(s[0], Insert(t, e));
    } else {
      BeforeTotal(e, s[0]);
      assert s[0] in s;
    }
  }

  /** Removal keeps the order and takes out exactly `e`. */
  lemma {:induction false} RemoveKeepsOrder(s: seq<Event>, e: Event)
    requires Sorted(s) && Agrees(s, e)
    ensures Sorted(Remove(s, e))
    ensures forall x :: x in Remove(s, e) <==> x in s && x != e
  {
    if s == [] {
    } else {
      SortedHasNoRepeats(s);
      var t := s[1..];
      assert s == [s[0]] + t;
      if Before(e, s[0]) {
        forall x | x in s ensures x != e {
          var i :| 0 <= i < |s| && s[i] == x;
          if i > 0 { BeforeTransitive(e, s[0], s[i]); }
          BeforeTotal(e, s[i]);
        }
      } else if Before(s[0], e) {
        RemoveKeepsOrder(t, e);
        BeforeTotal(s[0], e);
        var r := Remove(t, e);
        if r != [] {
          assert r[0] in r;
          assert r[0] in t;
        }
        SortedCons(s[0], r);
      } else {
        BeforeTotal(e, s[0]);
        assert s[0] in s;
        assert s[0] !in t;
      }
    }
  }

  /** A sorted set is determined by its elements. */
  lemma {:induction false} SortedIsUnique(s: seq<Event>, t: seq<Event>)
    requires Sorted(s) && Sorted(t)
    requires forall x :: x in s <==> x in t
    ensures s == t
  {
    assert s != [] ==> s[0] in t;
    assert t != [] ==> t[0] in s;
    if s != [] && t != [] {
      var i :| 0 <= i < |t| && t[i] == s[0];
      var j :| 0 <= j < |s| && s[j] == t[0];
      if i > 0 && j > 0 { BeforeTotal(s[0], t[0]); }
      assert s[0] == t[0];
      SortedHasNoRepeats(s);
      SortedHasNoRepeats(t);
      assert s == [s[0]] + s[1..] && t == [t[0]] + t[1..];
      forall x ensures x in s[1..] <==> x in t[1..] {
        assert x in s[1..] <==> x in s && x != s[0];
        assert x in t[1..] <==> x in t && x != t[0];
      }
      SortedIsUnique(s[1..], t[1..]);
    }
  }

  /** Distinct elements are counted once each. */
  lemma {:induction false} DistinctCount<T>(s: seq<T>)
    requires forall i, j :: 0 <= i < j < |s| ==> s[i] != s[j]
    ensures |set x | x in s| == |s|
  {
    if s != [] {
      var t := s[..|s| - 1];
      var last := s[|s| - 1];
      DistinctCount(t);
      assert s == t + [last];
      assert (set x | x in s) == (set x | x in t) + {last};
      assert last !in (set x | x in t);
    }
  }
}
