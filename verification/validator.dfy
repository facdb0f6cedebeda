/**
 * isValid: the structural check, looking down at the children and up at
 * the `prev` link, since it may be started from any node of a tree.
 */
module Validator {
  import opened Wrappers
  import opened NodeKinds
  import opened Arena

  /** No slot of the node's `next` array is null. */
  predicate NoNullSlot(n: TreeNode) {
    forall i :: 0 <= i < |SlotIds(n)| ==> SlotIds(n)[i].Some?
  }

  /**
   * The check never dereferences a null child: a node that is neither an
   * event nor receivable (those two reject null slots before looking at
   * the children) has no null slot, and so on below.
   */
  ghost predicate NullSafe(h: Heap, rank: map<Id, nat>, t: Id)
    requires Ranked(h, rank) && t in rank
    decreases rank[t]
  {
    var n := h[t];
    && (Has(n.current, AnyNode) && !Has(n.current, Event) && !Has(n.current, Receivable) ==> NoNullSlot(n))
    && ChildrenBelow(n, rank, rank[t])
    && forall i :: 0 <= i < |SlotIds(n)| && SlotIds(n)[i].Some? ==> NullSafe(h, rank, SlotIds(n)[i].value)
  }

  /** Every child of the node, all of them present, is valid. */
  predicate AllChildrenValid(h: Heap, rank: map<Id, nat>, t: Id)
    requires Closed(h) && Ranked(h, rank) && t in rank && NullSafe(h, rank, t)
    requires NoNullSlot(h[t])
    decreases rank[t], 0
  {
    forall i :: 0 <= i < |SlotIds(h[t])| ==> IsValid(h, rank, SlotIds(h[t])[i].value)
  }

  function IsValid(h: Heap, rank: map<Id, nat>, t: Id): (r: bool)
    requires Closed(h) && Ranked(h, rank) && t in rank && NullSafe(h, rank, t)
    ensures r ==> Has(h[t].current, AnyNode)
    decreases rank[t], 1
  {
    var n := h[t];
    if n.current.None? then false
    else if !Has(n.current, AnyNode) then false
    else if Has(n.current, Event) then
      if n.prev.Some? then false
      else if SlotIds(n) != [] then
        if !NoNullSlot(n) then false else AllChildrenValid(h, rank, t)
      else true
    else if Has(n.current, Receivable) && (SlotIds(n) == [] || !NoNullSlot(n)) then false
    else if Has(n.current, Returning) && (n.prev.None? || !Has(h[n.prev.value].current, Receivable)) then false
    else AllChildrenValid(h, rank, t)
  }

  /** An event is valid iff it has no `prev` and its children, if any, are all present and valid. */
  lemma EventValidity(h: Heap, rank: map<Id, nat>, t: Id)
    requires Closed(h) && Ranked(h, rank) && t in rank && NullSafe(h, rank, t)
    requires Has(h[t].current, AnyNode) && Has(h[t].current, Event)
    ensures IsValid(h, rank, t) <==>
      && h[t].prev.None?
      && (SlotIds(h[t]) == [] || (NoNullSlot(h[t]) && AllChildrenValid(h, rank, t)))
  {
  }

  /**
   * A node that is an INode but not an event is valid iff: when it is
   * receivable, its `next` is non-empty without null slots (its length is
   * not compared with the arity); when it is returning, it hangs below a
   * receivable `prev`; and every child is present and valid.
   */
  lemma NonEventValidity(h: Heap, rank: map<Id, nat>, t: Id)
    requires Closed(h) && Ranked(h, rank) && t in rank && NullSafe(h, rank, t)
    requires Has(h[t].current, AnyNode) && !Has(h[t].current, Event)
    ensures IsValid(h, rank, t) <==>
      && (Has(h[t].current, Receivable) ==> SlotIds(h[t]) != [] && NoNullSlot(h[t]))
      && (Has(h[t].current, Returning) ==> h[t].prev.Some? && Has(h[h[t].prev.value].current, Receivable))
      && NoNullSlot(h[t]) && AllChildrenValid(h, rank, t)
  {
  }

  /** Every child of a valid node is present and valid. */
  lemma ChildOfValid(h: Heap, rank: map<Id, nat>, t: Id, i: nat)
    requires Closed(h) && Ranked(h, rank) && t in rank && NullSafe(h, rank, t)
    requires IsValid(h, rank, t) && i < |SlotIds(h[t])|
    ensures SlotIds(h[t])[i].Some?
    ensures var c := SlotIds(h[t])[i].value; c in rank && NullSafe(h, rank, c) && IsValid(h, rank, c)
  {
    assert AllChildrenValid(h, rank, t);
  }

  /**
   * Validity of a tree is validity everywhere in it: every object below a
   * valid node is valid, so no receivable node below it lacks children and
   * no returning node below it hangs under a non-receivable one.
   */
  lemma {:induction false} ValidThroughout(h: Heap, rank: map<Id, nat>, t: Id, u: Id)
    requires Closed(h) && Ranked(h, rank) && t in rank && NullSafe(h, rank, t)
    requires IsValid(h, rank, t) && u in Reach(h, rank, Some(t))
    ensures u in rank && NullSafe(h, rank, u) && IsValid(h, rank, u)
    ensures !Has(h[u].current, Event) && Has(h[u].current, Receivable) ==> SlotIds(h[u]) != [] && NoNullSlot(h[u])
    ensures !Has(h[u].current, Event) && Has(h[u].current, Returning) ==>
      h[u].prev.Some? && Has(h[h[u].prev.value].current, Receivable)
    decreases rank[t]
  {
    if u != t {
      var slots := SlotIds(h[t]);
      var i :| 0 <= i < |slots| && u in Reach(h, rank, slots[i]);
      ChildOfValid(h, rank, t, i);
      ValidThroughout(h, rank, slots[i].value, u);
    } else if !Has(h[u].current, Event) {
      NonEventValidity(h, rank, u);
    }
  }
}
