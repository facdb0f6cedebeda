/**
 * The FunctionTree class: its constructors, setters, getFather and the
 * imperative forms of executeFunction, serialize and deserialize. All
 * FunctionTree objects live in one Forest, addressed by Id; a method that
 * changes a FunctionTree's field replaces that object's entry.
 */
module FunctionTrees {
  import opened Wrappers
  import opened NodeKinds
  import opened Trees
  import opened Arena
  import opened Evaluator
  import opened Serializer

  /** The ids allocated from `lo` up to `hi`. */
  ghost predicate Fresh(rank: map<Id, nat>, lo: nat, hi: nat) {
    forall u :: u in rank ==> lo <= u < hi
  }

  /** Every object of h0 is still there, unchanged, in h. */
  ghost predicate Keeps(h0: Heap, h: Heap) {
    forall u :: u in h0 ==> u in h && h[u] == h0[u]
  }

  /** Every child of an object in `rank` has that object as its `prev`. */
  ghost predicate Linked(h: Heap, rank: map<Id, nat>) {
    forall u :: u in rank && u in h ==>
      forall i :: 0 <= i < |SlotIds(h[u])| && SlotIds(h[u])[i].Some? ==>
        SlotIds(h[u])[i].value in h && h[SlotIds(h[u])[i].value].prev == Some(u)
  }

  class Forest {
    var trees: Heap
    var free: Id

    ghost predicate Valid()
      reads this
    {
      Closed(trees) && forall t :: t in trees ==> t < free
    }

    constructor ()
      ensures Valid() && trees == map[]
    {
      trees, free := map[], 0;
    }

    /** A reference that is null or names an existing object. */
    ghost predicate Exists(s: Option<Id>)
      reads this
    {
      s.Some? ==> s.value in trees
    }

    /** new FunctionTree(current, next, prev). */
    method NewTree(current: Option<Instance>, next: Option<seq<Option<Id>>>, prev: Option<Id>) returns (t: Id)
      requires Valid() && Exists(prev)
      requires next.Some? ==> forall i :: 0 <= i < |next.value| ==> Exists(next.value[i])
      modifies this
      ensures Valid() && t !in old(trees) && old(free) <= t < free
      ensures trees == old(trees)[t := TreeNode(current, next, prev)]
    {
      t := free;
      ClosedUpdate(trees, t, TreeNode(current, next, prev));
      trees := trees[t := TreeNode(current, next, prev)];
      free := free + 1;
    }

    /** new FunctionTree(current): no children, no `prev`. */
    method NewLeaf(current: Option<Instance>) returns (t: Id)
      requires Valid()
      modifies this
      ensures Valid() && t !in old(trees) && old(free) <= t < free
      ensures trees == old(trees)[t := TreeNode(current, None, None)]
    {
      t := NewTree(current, None, None);
    }

    method SetCurrent(t: Id, current: Option<Instance>)
      requires Valid() && t in trees
      modifies this
      ensures Valid() && free == old(free)
      ensures trees == old(trees)[t := old(trees)[t].(current := current)]
    {
      assert SlotIds(trees[t].(current := current)) == SlotIds(trees[t]);
      ClosedUpdate(trees, t, trees[t].(current := current));
      trees := trees[t := trees[t].(current := current)];
    }

    method SetNext(t: Id, next: Option<seq<Option<Id>>>)
      requires Valid() && t in trees
      requires next.Some? ==> forall i :: 0 <= i < |next.value| ==> Exists(next.value[i])
      modifies this
      ensures Valid() && free == old(free)
      ensures trees == old(trees)[t := old(trees)[t].(next := next)]
    {
      ClosedUpdate(trees, t, trees[t].(next := next));
      trees := trees[t := trees[t].(next := next)];
    }

    method SetPrev(t: Id, prev: Option<Id>)
      requires Valid() && t in trees && Exists(prev)
      modifies this
      ensures Valid() && free == old(free)
      ensures trees == old(trees)[t := old(trees)[t].(prev := prev)]
    {
      assert SlotIds(trees[t].(prev := prev)) == SlotIds(trees[t]);
      ClosedUpdate(trees, t, trees[t].(prev := prev));
      trees := trees[t := trees[t].(prev := prev)];
    }

    /**
     * getFather: follows `prev` until it is null. The result is reached
     * from t by k `prev` links and has no `prev`; it is t itself when t
     * has none.
     */
    method GetFather(t: Id, ghost steps: nat) returns (r: Id, ghost k: nat)
      requires ReachesRoot(trees, t, steps)
      ensures r in trees && trees[r].prev.None?
      ensures k <= steps && Up(trees, t, k) == Some(r)
      ensures trees[t].prev.None? ==> r == t
    {
      r, k := t, 0;
      while trees[r].prev.Some?
        invariant k <= steps && Up(trees, t, k) == Some(r) && ReachesRoot(trees, r, steps - k)
        decreases steps - k
      {
        UpStep(t, k);
        r, k := trees[r].prev.value, k + 1;
      }
    }

    lemma {:induction false} UpStep(t: Id, k: nat)
      requires Up(trees, t, k).Some? && Up(trees, t, k).value in trees
      requires trees[Up(trees, t, k).value].prev.Some?
      ensures Up(trees, t, k + 1) == trees[Up(trees, t, k).value].prev
      decreases k
    {
      if k > 0 {
        UpStep(trees[t].prev.value, k - 1);
      }
    }

    /**
     * executeFunction(func, executor, item): the result and the callbacks
     * made are those of the evaluator on the tree below func.
     */
    method ExecuteFunction(func: Option<Id>, ctx: Context, trace: seq<Call>, ghost rank: map<Id, nat>)
      returns (v: Value, trace': seq<Call>)
      requires Ranked(trees, rank) && InRank(rank, func) && CanExec(Snapshot(trees, rank, func))
      ensures Run(v, trace') == Exec(Snapshot(trees, rank, func), ctx, trace)
      decreases Measure(rank, func), 1
    {
      if func.None? {
        return NullValue, trace;
      }
      var node := trees[func.value];
      trace' := trace;
      if Has(node.current, Event) {
        // every child, in order; their values are dropped
        var _, after := ExecuteArguments(func.value, |node.next.value|, ctx, trace, rank);
        trace' := after;
      }
      if Has(node.current, Action) {
        var values;
        values, trace' := ExecuteArguments(func.value, Arity(node.current), ctx, trace', rank);
        return Result(|trace'|), trace' + [ActionCall(node.current.value, values)];
      }
      if node.next.None? || |node.next.value| == 0 {
        if Has(node.current, Primitive) {
          return Result(|trace'|), trace' + [PrimitiveCall(node.current.value, ctx.executor, ctx.item)];
        }
        return NullValue, trace';
      }
      if Has(node.current, Parameter) {
        var values;
        values, trace' := ExecuteArguments(func.value, Arity(node.current), ctx, trace', rank);
        return Result(|trace'|), trace' + [ParameterCall(node.current.value, values)];
      }
      return NullValue, trace';
    }

    /** Fills the argument array, in order: values[i] := executeFunction(next[i]) for i < n. */
    method ExecuteArguments(t: Id, n: nat, ctx: Context, trace: seq<Call>, ghost rank: map<Id, nat>)
      returns (values: seq<Value>, trace': seq<Call>)
      requires Ranked(trees, rank) && t in rank
      requires HasArgs(Snapshot(trees, rank, Some(t)), n)
      requires forall i :: 0 <= i < n ==> CanExec(Snapshot(trees, rank, Some(t)).next.slots[i])
      ensures Args(values, trace') == ExecArgs(Snapshot(trees, rank, Some(t)), n, ctx, trace)
      decreases rank[t] + 1, 0
    {
      ghost var tree := Snapshot(trees, rank, Some(t));
      values, trace' := [], trace;
      for i := 0 to n
        invariant Args(values, trace') == ExecArgs(tree, i, ctx, trace)
      {
        SnapshotSlot(trees, rank, t, i);
        var value;
        value, trace' := ExecuteFunction(trees[t].next.value[i], ctx, trace', rank);
        values := values + [value];
      }
    }

    /** serialize(tree): the document is that of the tree below the reference. */
    method Serialize(tree: Option<Id>, ghost rank: map<Id, nat>) returns (d: Option<Document>)
      requires Ranked(trees, rank) && InRank(rank, tree) && Encodable(Snapshot(trees, rank, tree))
      ensures d == Encode(Snapshot(trees, rank, tree))
      decreases Measure(rank, tree)
    {
      if tree.None? || trees[tree.value].current.None? {
        return None;
      }
      var node := trees[tree.value];
      ghost var snapshot := Snapshot(trees, rank, tree);
      var doc := PutDefaultTreeValues(node.current, EmptyDocument);
      var values: seq<Option<Document>> := [];
      if node.next.Some? {
        for i := 0 to |node.next.value|
          invariant |values| == i
          invariant forall j :: 0 <= j < i ==> values[j] == Encode(Slots(snapshot)[j])
        {
          SnapshotSlot(trees, rank, tree.value, i);
          var child := Serialize(node.next.value[i], rank);
          values := values + [child];
        }
      }
      assert |values| == |Slots(snapshot)|;
      assert values == seq(|Slots(snapshot)|, i requires 0 <= i < |Slots(snapshot)| => Encode(Slots(snapshot)[i]));
      if Has(node.current, TruePrimitive) {
        doc := doc.(value := Put(node.current.value.stored));
      } else {
        doc := doc.(values := if values == [] then NullValues else ValuesList(values));
      }
      d := Some(doc);
    }

    /**
     * deserialize(prev, map): builds new objects for the document and
     * returns the top one (null for a null document), whose `prev` is the
     * given one. No existing object changes; below the result, read as a
     * tree, is what Decode describes, and every new child points back at
     * its parent.
     */
    method Deserialize(prev: Option<Id>, doc: Option<Document>, lookup: Lookup)
      returns (tree: Option<Id>, ghost rank: map<Id, nat>)
      requires Valid() && Exists(prev)
      modifies this
      ensures Valid() && old(free) <= free
      ensures Keeps(old(trees), trees)
      ensures Fresh(rank, old(free), free) && Ranked(trees, rank) && Linked(trees, rank)
      ensures InRank(rank, tree) && (tree.Some? ==> trees[tree.value].prev == prev && Peak(rank, tree.value))
      ensures tree.None? ==> rank == map[]
      ensures Snapshot(trees, rank, tree) == Decode(lookup, doc)
      decreases doc, 1
    {
      if doc.None? {
        return None, map[];
      }
      var t := NewTree(lookup(Get(doc.value.name)), None, prev);
      var current := trees[t].current;
      if Has(current, TruePrimitive) {
        SetCurrent(t, Some(current.value.(stored := Get(doc.value.value))));
        return Some(t), map[t := 0];
      }
      var list := Records(doc.value);
      if list.None? || |list.value| == 0 {
        return Some(t), map[t := 0];
      }
      ghost var withT, freeT := trees, free;
      var next, rankBelow, top := DeserializeChildren(t, doc.value, lookup);
      ghost var before := trees;
      SetNext(t, Some(next));
      rank := rankBelow[t := top + 1];
      Attach(withT, freeT, before, free, trees, rankBelow, top, t, lookup, next, doc.value);
      tree := Some(t);
    }

    /**
     * The loop of deserialize: next[i] := deserialize(t, list[i]) for
     * each entry of the document's "Values" list, in order.
     */
    method DeserializeChildren(t: Id, d: Document, lookup: Lookup)
      returns (next: seq<Option<Id>>, ghost rank: map<Id, nat>, ghost top: nat)
      requires Valid() && t in trees && d.values.ValuesList?
      modifies this
      ensures Valid() && Grown(old(trees), old(free), trees, free, rank, top, t, lookup, next, d.values.records, |d.values.records|)
      decreases Some(d), 0
    {
      var list := d.values.records;
      next, top, rank := [], 0, map[];
      for i := 0 to |list|
        invariant Valid() && Grown(old(trees), old(free), trees, free, rank, top, t, lookup, next, list, i)
      {
        ghost var before, rankBefore, freeBefore := trees, rank, free;
        var child, childRank := Deserialize(Some(t), list[i], lookup);
        GrowStep(old(trees), old(free), before, freeBefore, rankBefore, top, t, lookup, next, list, i,
                 trees, free, childRank, child);
        rank := Union(rankBefore, childRank);
        next := next + [child];
        if child.Some? && childRank[child.value] > top {
          top := childRank[child.value];
        }
      }
    }
  }

  /**
   * What the children loop of deserialize has built from the first n
   * records, starting from the heap h0 with first free id free0: no old
   * object changed, the new ones are ranked below `top` and linked, `built`
   * are children of t, and each is read back as the decoding of its record.
   */
  ghost predicate Grown(h0: Heap, free0: nat, h: Heap, free: nat, rank: map<Id, nat>, top: nat, t: Id,
                        lookup: Lookup, built: seq<Option<Id>>, records: seq<Option<Document>>, n: nat)
  {
    && free0 <= free
    && Keeps(h0, h)
    && Fresh(rank, free0, free) && Ranked(h, rank) && Linked(h, rank)
    && (forall u :: u in rank ==> rank[u] <= top)
    && Children(h, rank, t, built) && |built| == n <= |records|
    && (forall j :: 0 <= j < n ==> Snapshot(h, rank, built[j]) == Decode(lookup, records[j]))
  }

  /** The rankings of two disjoint groups of objects, together. */
  function Union(a: map<Id, nat>, b: map<Id, nat>): (r: map<Id, nat>) {
    a + b
  }

  /** One more child, built by deserialize from the heap `before`, extends what was grown. */
  lemma GrowStep(h0: Heap, free0: nat, before: Heap, freeBefore: nat, rank: map<Id, nat>, top: nat, t: Id,
                 lookup: Lookup, built: seq<Option<Id>>, records: seq<Option<Document>>, n: nat,
                 h: Heap, free: nat, childRank: map<Id, nat>, child: Option<Id>)
    requires Grown(h0, free0, before, freeBefore, rank, top, t, lookup, built, records, n) && n < |records|
    requires freeBefore <= free && Keeps(before, h)
    requires Fresh(childRank, freeBefore, free) && Ranked(h, childRank) && Linked(h, childRank)
    requires InRank(childRank, child) && (child.Some? ==> h[child.value].prev == Some(t) && Peak(childRank, child.value))
    requires child.None? ==> childRank == map[]
    requires Snapshot(h, childRank, child) == Decode(lookup, records[n])
    ensures var top' := if child.Some? && childRank[child.value] > top then childRank[child.value] else top;
      Grown(h0, free0, h, free, Union(rank, childRank), top', t, lookup, built + [child], records, n + 1)
  {
    assert AgreeOn(before, h, rank);
    MergeChild(before, rank, h, childRank, t, built, child);
  }

  /**
   * Storing the children grown from the document's records in t's `next`
   * gives t's tree exactly the decoding of the document, with t ranked
   * above everything below it.
   */
  lemma Attach(h0: Heap, free0: nat, before: Heap, free: nat, h: Heap, rank: map<Id, nat>, top: nat, t: Id,
               lookup: Lookup, next: seq<Option<Id>>, d: Document)
    requires t in h0 && t < free0 && h0[t].next.None? && h0[t].current == lookup(Get(d.name))
    requires !Has(h0[t].current, TruePrimitive) && d.values.ValuesList? && d.values.records != []
    requires Grown(h0, free0, before, free, rank, top, t, lookup, next, d.values.records, |d.values.records|)
    requires h == before[t := before[t].(next := Some(next))]
    ensures Ranked(h, rank[t := top + 1]) && Linked(h, rank[t := top + 1]) && Peak(rank[t := top + 1], t)
    ensures Snapshot(h, rank[t := top + 1], Some(t)) == Decode(lookup, Some(d))
  {
    AttachChildren(before, rank, h, t, next, top);
    assert Slots(Snapshot(h, rank[t := top + 1], Some(t))) == Slots(Decode(lookup, Some(d)));
  }

  /** The given references are ranked children of t: each null, or pointing back at t. */
  ghost predicate Children(h: Heap, rank: map<Id, nat>, t: Id, slots: seq<Option<Id>>) {
    forall j :: 0 <= j < |slots| ==>
      InRank(rank, slots[j]) && (slots[j].Some? ==> slots[j].value in h && h[slots[j].value].prev == Some(t))
  }

  /**
   * Adding a freshly built child keeps the ranking, the back-links and the
   * trees already read below the earlier children.
   */
  lemma MergeChild(before: Heap, rank: map<Id, nat>, h: Heap, childRank: map<Id, nat>,
                   t: Id, built: seq<Option<Id>>, child: Option<Id>)
    requires Ranked(before, rank) && Linked(before, rank) && AgreeOn(before, h, rank)
    requires Ranked(h, childRank) && Linked(h, childRank) && rank.Keys !! childRank.Keys
    requires Children(before, rank, t, built) && InRank(childRank, child)
    requires child.Some? ==> child.value in h && h[child.value].prev == Some(t)
    ensures Ranked(h, rank + childRank) && Linked(h, rank + childRank)
    ensures Children(h, rank + childRank, t, built + [child])
    ensures forall j :: 0 <= j < |built| ==>
      Snapshot(h, rank + childRank, built[j]) == Snapshot(before, rank, built[j])
    ensures Snapshot(h, rank + childRank, child) == Snapshot(h, childRank, child)
  {
    RankedAgree(before, h, rank);
    RankedUnion(h, rank, childRank);
    var merged := rank + childRank;
    forall u | u in merged && u in h
      ensures forall i :: 0 <= i < |SlotIds(h[u])| && SlotIds(h[u])[i].Some? ==>
        SlotIds(h[u])[i].value in h && h[SlotIds(h[u])[i].value].prev == Some(u)
    {
      if u in rank {
        assert ChildrenBelow(before[u], rank, rank[u]);
      }
    }
    forall j | 0 <= j < |built|
      ensures Snapshot(h, merged, built[j]) == Snapshot(before, rank, built[j])
    {
      SnapshotAgree(before, rank, h, merged, built[j]);
    }
    SnapshotAgree(h, childRank, h, merged, child);
  }

  /**
   * Storing the built children in t's `next` ranks t above them, links
   * them to t and leaves the trees below them as they were.
   */
  lemma AttachChildren(before: Heap, rank: map<Id, nat>, h: Heap, t: Id, slots: seq<Option<Id>>, top: nat)
    requires Ranked(before, rank) && Linked(before, rank) && Children(before, rank, t, slots)
    requires t in before && t !in rank && forall u :: u in rank ==> rank[u] <= top
    requires h == before[t := before[t].(next := Some(slots))]
    ensures Ranked(h, rank[t := top + 1]) && Linked(h, rank[t := top + 1])
    ensures forall j :: 0 <= j < |slots| ==> Snapshot(h, rank[t := top + 1], slots[j]) == Snapshot(before, rank, slots[j])
    ensures Snapshot(h, rank[t := top + 1], Some(t))
         == Node(before[t].current, Array(seq(|slots|, j requires 0 <= j < |slots| => Snapshot(before, rank, slots[j]))))
  {
    var rank' := rank[t := top + 1];
    assert AgreeOn(before, h, rank);
    forall u | u in rank'
      ensures u in h && ChildrenBelow(h[u], rank', rank'[u])
    {
      if u != t {
        assert ChildrenBelow(before[u], rank, rank[u]);
      }
    }
    forall j | 0 <= j < |slots|
      ensures Snapshot(h, rank', slots[j]) == Snapshot(before, rank, slots[j])
    {
      SnapshotAgree(before, rank, h, rank', slots[j]);
    }
    assert Slots(Snapshot(h, rank', Some(t)))
        == seq(|slots|, j requires 0 <= j < |slots| => Snapshot(before, rank, slots[j]));
  }

  /** The object t is ranked highest. */
  ghost predicate Peak(rank: map<Id, nat>, t: Id) {
    t in rank && forall u :: u in rank ==> rank[u] <= rank[t]
  }
}
