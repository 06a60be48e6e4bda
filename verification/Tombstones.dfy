/** The bounded FIFO set of deleted ids (src/store/index.rs:43-84). */
module TombstoneQueue {
  import opened Events
  import opened StoreSpec

  lemma HeadLeaves(q: seq<Id>)
    requires NoRepeats(q) && q != []
    ensures (set x | x in q[1..]) == (set x | x in q) - {q[0]}
  {
    assert q == [q[0]] + q[1..];
    assert forall i :: 0 <= i < |q[1..]| ==> q[1..][i] == q[i + 1];
  }

  class Tombstones {
    var count: nat
    var ids: set<Id>
    var order: seq<Id>

    /** The id set is the duplicate-free queue, and `count` its size. */
    ghost predicate Valid()
      reads this
    {
      && NoRepeats(order)
      && |order| <= MAX_TOMBSTONES
      && ids == (set x | x in order)
      && count == |ids|
    }

    constructor ()
      ensures Valid() && order == []
    {
      count, ids, order := 0, {}, [];
    }

    /** The shortcut through `count` never hides a tombstone. */
    method Contains(id: Id) returns (found: bool)
      requires Valid()
      ensures found <==> id in order
    {
      assert count == 0 ==> ids == {};
      assert id in ids <==> id in order;
      found := count != 0 && id in ids;
    }

    method Insert(id: Id)
      requires Valid()
      modifies this
      ensures Valid()
      ensures order == Bury(old(order), id)
    {
      BuryKeepsQueue(order, id);
      assert id in ids <==> id in order;
      if id in ids {
        return;
      }
      ids := ids + {id};
      ghost var pushed := order + [id];
      order := order + [id];
      assert pushed[..|pushed| - 1] == old(order) && NoRepeats(pushed);
      while |order| > MAX_TOMBSTONES
        invariant order == pushed || (|pushed| == MAX_TOMBSTONES + 1 && order == pushed[1..])
        invariant ids == set x | x in order
      {
        var evicted := order[0];
        HeadLeaves(order);
        order := order[1..];
        ids := ids - {evicted};
      }
      count := |ids|;
    }
  }
}
