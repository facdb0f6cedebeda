/**
 * The FunctionTree objects of a running program, as an arena: each object
 * has an identity (Id) and the three fields current, next and prev. A
 * `next` slot or a `prev` link is an Id, so several slots may share an
 * object and `prev` may point anywhere, exactly as Java references can.
 */
module Arena {
  import opened Wrappers
  import opened NodeKinds
  import opened Trees

  type Id = nat

  datatype TreeNode = TreeNode(current: Option<Instance>, next: Option<seq<Option<Id>>>, prev: Option<Id>)

  type Heap = map<Id, TreeNode>

  /** The `next` array of a node, or no slots when it is null. */
  function SlotIds(n: TreeNode): (r: seq<Option<Id>>) {
    if n.next.Some? then n.next.value else []
  }

  /** Every reference stored in a field names an existing object. */
  ghost predicate Closed(h: Heap) {
    forall t :: t in h ==>
      && (h[t].prev.Some? ==> h[t].prev.value in h)
      && forall i :: 0 <= i < |SlotIds(h[t])| && SlotIds(h[t])[i].Some? ==> SlotIds(h[t])[i].value in h
  }

  /** Storing a node whose references all exist keeps the heap closed. */
  lemma ClosedUpdate(h: Heap, t: Id, n: TreeNode)
    requires Closed(h)
    requires n.prev.Some? ==> n.prev.value in h || n.prev.value == t
    requires forall i :: 0 <= i < |SlotIds(n)| && SlotIds(n)[i].Some? ==> SlotIds(n)[i].value in h || SlotIds(n)[i].value == t
    ensures Closed(h[t := n])
  {
  }

  /**
   * `rank` witnesses that the objects in its domain form finite acyclic
   * trees: every child of a ranked object is ranked lower.
   */
  ghost predicate Ranked(h: Heap, rank: map<Id, nat>) {
    forall t :: t in rank ==> t in h && ChildrenBelow(h[t], rank, rank[t])
  }

  ghost predicate ChildrenBelow(n: TreeNode, rank: map<Id, nat>, bound: nat) {
    forall i :: 0 <= i < |SlotIds(n)| && SlotIds(n)[i].Some? ==>
      SlotIds(n)[i].value in rank && rank[SlotIds(n)[i].value] < bound
  }

  /** A reference is null or ranked. */
  ghost predicate InRank(rank: map<Id, nat>, s: Option<Id>) {
    s.Some? ==> s.value in rank
  }

  function Measure(rank: map<Id, nat>, s: Option<Id>): (r: nat)
    requires InRank(rank, s)
  {
    if s.Some? then rank[s.value] + 1 else 0
  }

  /** Two heaps agree on the objects ranked by `rank`. */
  ghost predicate AgreeOn(h: Heap, h': Heap, rank: map<Id, nat>) {
    forall t :: t in rank && t in h ==> t in h' && h'[t] == h[t]
  }

  /** A ranking survives any change to objects outside it. */
  lemma RankedAgree(h: Heap, h': Heap, rank: map<Id, nat>)
    requires Ranked(h, rank) && AgreeOn(h, h', rank)
    ensures Ranked(h', rank)
  {
    forall t | t in rank
      ensures t in h' && ChildrenBelow(h'[t], rank, rank[t])
    {
      assert h'[t] == h[t];
    }
  }

  /** Two rankings of disjoint sets of objects combine into one. */
  lemma RankedUnion(h: Heap, rank: map<Id, nat>, rank': map<Id, nat>)
    requires Ranked(h, rank) && Ranked(h, rank') && rank.Keys !! rank'.Keys
    ensures Ranked(h, rank + rank')
  {
    var both := rank + rank';
    forall t | t in both
      ensures t in h && ChildrenBelow(h[t], both, both[t])
    {
      if t in rank {
        assert ChildrenBelow(h[t], rank, rank[t]);
      } else {
        assert ChildrenBelow(h[t], rank', rank'[t]);
      }
    }
  }

  /** The tree below a reference, read as a value. */
  ghost function Snapshot(h: Heap, rank: map<Id, nat>, s: Option<Id>): (r: Tree)
    requires Ranked(h, rank) && InRank(rank, s)
    ensures r.Null? <==> s.None?
    ensures s.Some? ==> r.current == h[s.value].current
    ensures s.Some? ==> (r.next.NoArray? <==> h[s.value].next.None?)
    ensures s.Some? ==> |Slots(r)| == |SlotIds(h[s.value])|
    decreases Measure(rank, s)
  {
    if s.None? then Null
    else
      var n := h[s.value];
      assert ChildrenBelow(n, rank, rank[s.value]);
      if n.next.None? then Node(n.current, NoArray)
      else Node(n.current, Array(seq(|SlotIds(n)|, i requires 0 <= i < |SlotIds(n)| =>
        Snapshot(h, rank, SlotIds(n)[i]))))
  }

  /** Slot i of the snapshot is the snapshot of slot i. */
  lemma SnapshotSlot(h: Heap, rank: map<Id, nat>, t: Id, i: nat)
    requires Ranked(h, rank) && t in rank && i < |SlotIds(h[t])|
    ensures InRank(rank, SlotIds(h[t])[i])
    ensures Slots(Snapshot(h, rank, Some(t)))[i] == Snapshot(h, rank, SlotIds(h[t])[i])
  {
  }

  /**
   * The snapshot depends only on the objects below the reference: two
   * rankings over heaps that agree there read the same tree.
   */
  lemma {:induction false} SnapshotAgree(h: Heap, rank: map<Id, nat>, h': Heap, rank': map<Id, nat>, s: Option<Id>)
    requires Ranked(h, rank) && Ranked(h', rank') && InRank(rank, s) && InRank(rank', s)
    requires AgreeOn(h, h', rank)
    ensures Snapshot(h, rank, s) == Snapshot(h', rank', s)
    decreases Measure(rank, s)
  {
    if s.Some? {
      var n := h[s.value];
      assert h'[s.value] == n;
      if n.next.Some? {
        assert ChildrenBelow(n, rank, rank[s.value]) && ChildrenBelow(n, rank', rank'[s.value]);
        forall i | 0 <= i < |SlotIds(n)|
          ensures Snapshot(h, rank, SlotIds(n)[i]) == Snapshot(h', rank', SlotIds(n)[i])
        {
          SnapshotAgree(h, rank, h', rank', SlotIds(n)[i]);
        }
        assert Slots(Snapshot(h, rank, s)) == Slots(Snapshot(h', rank', s));
      }
    }
  }

  /** The objects reachable from a reference through `next` slots: an independent account of "in the tree". */
  ghost function Reach(h: Heap, rank: map<Id, nat>, s: Option<Id>): (r: set<Id>)
    requires Ranked(h, rank) && InRank(rank, s)
    ensures r <= rank.Keys
    ensures s.Some? ==> s.value in r
    decreases Measure(rank, s)
  {
    if s.None? then {}
    else
      var slots := SlotIds(h[s.value]);
      {s.value} + set i, x | 0 <= i < |slots| && x in Reach(h, rank, slots[i]) :: x
  }

  /** The object reached by following `prev` k times, if the chain is that long. */
  function Up(h: Heap, t: Id, k: nat): (r: Option<Id>)
    decreases k
  {
    if k == 0 then Some(t)
    else if t in h && h[t].prev.Some? then Up(h, h[t].prev.value, k - 1)
    else None
  }

  /** Following `prev` from t ends, within `steps` links, at an object whose `prev` is null. */
  ghost predicate ReachesRoot(h: Heap, t: Id, steps: nat)
    decreases steps
  {
    t in h && (h[t].prev.Some? ==> steps > 0 && ReachesRoot(h, h[t].prev.value, steps - 1))
  }
}
