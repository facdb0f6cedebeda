/** isInTree: the depth-first membership test, by object identity. */
module Navigation {
  import opened Wrappers
  import opened Arena

  /**
   * The search never reads a null `next` array: every object it enters,
   * other than the one sought, has a `next` array.
   */
  ghost predicate Searchable(h: Heap, rank: map<Id, nat>, obj: Option<Id>, cur: Option<Id>)
    requires Ranked(h, rank) && InRank(rank, cur)
    decreases Measure(rank, cur)
  {
    cur.None? || cur == obj || (
      && h[cur.value].next.Some?
      && ChildrenBelow(h[cur.value], rank, rank[cur.value])
      && forall i :: 0 <= i < |SlotIds(h[cur.value])| ==> Searchable(h, rank, obj, SlotIds(h[cur.value])[i]))
  }

  /** isInTree(obj, current): obj is current, or is found below one of current's children. */
  function IsInTree(h: Heap, rank: map<Id, nat>, obj: Option<Id>, cur: Option<Id>): bool
    requires Ranked(h, rank) && InRank(rank, cur) && Searchable(h, rank, obj, cur)
    decreases Measure(rank, cur)
  {
    if cur.None? then false
    else if cur == obj then true
    else exists i :: 0 <= i < |SlotIds(h[cur.value])| && IsInTree(h, rank, obj, SlotIds(h[cur.value])[i])
  }

  /**
   * isInTree agrees with reachability: it holds exactly when obj is a
   * non-null object reachable from current through `next` slots.
   */
  lemma {:induction false} IsInTreeIffReachable(h: Heap, rank: map<Id, nat>, obj: Option<Id>, cur: Option<Id>)
    requires Ranked(h, rank) && InRank(rank, cur) && Searchable(h, rank, obj, cur)
    ensures IsInTree(h, rank, obj, cur) <==> obj.Some? && obj.value in Reach(h, rank, cur)
    decreases Measure(rank, cur)
  {
    if cur.Some? && cur != obj {
      var slots := SlotIds(h[cur.value]);
      forall i | 0 <= i < |slots|
        ensures IsInTree(h, rank, obj, slots[i]) <==> obj.Some? && obj.value in Reach(h, rank, slots[i])
      {
        IsInTreeIffReachable(h, rank, obj, slots[i]);
      }
      if obj.Some? && obj.value in Reach(h, rank, cur) {
        var i :| 0 <= i < |slots| && obj.value in Reach(h, rank, slots[i]);
        assert IsInTree(h, rank, obj, slots[i]);
      }
    }
  }
}
