/**
 * Worked trees: the OnUse -> Heal(NumberLiteral = 5) function, and two
 * valid trees that executeFunction cannot run, because isValid never
 * compares the length of `next` with the number of received types and
 * lets an event keep a null `next`.
 */
module Scenarios {
  import opened Wrappers
  import opened NodeKinds
  import opened Trees
  import opened Arena
  import opened Evaluator
  import opened Validator
  import opened Serializer

  const OnUseType := NodeType("OnUse", "OnUse", {AnyNode, Event}, 0)

  /** Heal receives `arity` values (one, the amount, in the worked example). */
  function HealType(arity: nat): NodeType {
    NodeType("Heal", "Heal", {AnyNode, Action, Receivable}, arity)
  }
  const NumberType := NodeType("NumberLiteral", "NumberLiteral", {AnyNode, Primitive, TruePrimitive, Returning}, 0)

  /**
   * Object 0 is the OnUse event, 1 a Heal action declaring `arity`
   * received types below it, and 2 the literal below that.
   */
  function HealHeap(five: Payload, arity: nat): Heap {
    map[
      0 := TreeNode(Some(Instance(OnUseType, None)), Some([Some(1)]), None),
      1 := TreeNode(Some(Instance(HealType(arity), None)), Some([Some(2)]), Some(0)),
      2 := TreeNode(Some(Instance(NumberType, Some(five))), None, Some(1))]
  }

  const HealRank: map<Id, nat> := map[0 := 2, 1 := 1, 2 := 0]

  /** The same objects as a value: OnUse -> Heal(NumberLiteral = five). */
  function HealTree(five: Payload, arity: nat): Tree {
    Node(Some(Instance(OnUseType, None)), Array([HealAction(five, arity)]))
  }

  function HealAction(five: Payload, arity: nat): Tree {
    Node(Some(Instance(HealType(arity), None)), Array([Literal(five)]))
  }

  function Literal(five: Payload): Tree {
    Node(Some(Instance(NumberType, Some(five))), NoArray)
  }

  /** The objects form a finite tree that isValid can walk without a null dereference. */
  lemma HealShape(five: Payload, arity: nat)
    ensures Closed(HealHeap(five, arity)) && Ranked(HealHeap(five, arity), HealRank)
    ensures NullSafe(HealHeap(five, arity), HealRank, 0)
  {
    var h := HealHeap(five, arity);
    assert NullSafe(h, HealRank, 2);
    assert NullSafe(h, HealRank, 1);
  }

  /** The tree is valid, whatever number of received types Heal declares. */
  lemma HealIsValid(five: Payload, arity: nat)
    ensures Closed(HealHeap(five, arity)) && Ranked(HealHeap(five, arity), HealRank)
    ensures NullSafe(HealHeap(five, arity), HealRank, 0) && IsValid(HealHeap(five, arity), HealRank, 0)
  {
    HealShape(five, arity);
    var h := HealHeap(five, arity);
    assert IsValid(h, HealRank, 2);
    assert IsValid(h, HealRank, 1);
  }

  /** Read as a value, the objects below 0 are HealTree. */
  lemma HealSnapshot(five: Payload, arity: nat)
    requires Ranked(HealHeap(five, arity), HealRank)
    ensures Snapshot(HealHeap(five, arity), HealRank, Some(0)) == HealTree(five, arity)
  {
    var h := HealHeap(five, arity);
    assert Snapshot(h, HealRank, Some(2)) == Literal(five);
    assert Snapshot(h, HealRank, Some(1)) == HealAction(five, arity);
  }

  /** Heal asks the literal for its value, then calls the action with it. */
  lemma HealActionRuns(five: Payload, ctx: Context)
    ensures CanExec(HealAction(five, 1))
    ensures Exec(HealAction(five, 1), ctx, []) == Run(Result(1), [
      PrimitiveCall(Instance(NumberType, Some(five)), ctx.executor, ctx.item),
      ActionCall(Instance(HealType(1), None), [Result(0)])])
  {
    var heal := HealAction(five, 1);
    var prim := PrimitiveCall(Instance(NumberType, Some(five)), ctx.executor, ctx.item);
    assert CanExec(Literal(five));
    LeafEvaluation(Literal(five), ctx, []);
    assert heal.next.slots[0] == Literal(five) && Arity(heal.current) == 1;
    assert ExecArgs(heal, 0, ctx, []) == Args([], []);
    assert ExecArgs(heal, 1, ctx, []) == Args([Result(0)], [prim]);
    assert !Has(heal.current, Event) && Has(heal.current, Action);
    assert Exec(heal, ctx, []) == Invoke(ActionCall(heal.current.value, [Result(0)]), [prim]);
  }

  /** Running the whole function does that and nothing more, and yields null. */
  lemma HealRuns(five: Payload, ctx: Context)
    ensures CanExec(HealTree(five, 1))
    ensures Exec(HealTree(five, 1), ctx, []) == Run(NullValue, [
      PrimitiveCall(Instance(NumberType, Some(five)), ctx.executor, ctx.item),
      ActionCall(Instance(HealType(1), None), [Result(0)])])
  {
    HealActionRuns(five, ctx);
    var top := HealTree(five, 1);
    EventEvaluation(top, ctx, []);
    assert ExecArgs(top, 0, ctx, []) == Args([], []);
    assert ExecArgs(top, 1, ctx, []).trace == Exec(HealAction(five, 1), ctx, []).trace;
  }

  /** It serializes to {Name: OnUse, Values: [{Name: Heal, Values: [{Name: NumberLiteral, Value: five}]}]}. */
  lemma HealSaves(five: Payload)
    ensures Encodable(HealTree(five, 1))
    ensures Encode(HealTree(five, 1)) == Some(Document(Present("OnUse"), Absent, ValuesList([
      Some(Document(Present("Heal"), Absent, ValuesList([
        Some(Document(Present("NumberLiteral"), Present(five), NoValues))])))])))
  {
    var heal := HealTree(five, 1).next.slots[0];
    var lit := heal.next.slots[0];
    assert Encodable(lit) && Encodable(heal);
    var litDoc := Document(Present("NumberLiteral"), Present(five), NoValues);
    assert Encode(lit) == Some(litDoc);
    assert seq(|Slots(heal)|, i requires 0 <= i < |Slots(heal)| => Encode(Slots(heal)[i])) == [Some(litDoc)];
    var healDoc := Document(Present("Heal"), Absent, ValuesList([Some(litDoc)]));
    assert !Has(heal.current, TruePrimitive);
    assert Slots(heal) == [lit];
    assert PutDefaultTreeValues(heal.current, EmptyDocument) == Document(Present("Heal"), Absent, NoValues);
    assert Encode(heal) == Some(healDoc);
    var top := HealTree(five, 1);
    assert seq(|Slots(top)|, i requires 0 <= i < |Slots(top)| => Encode(Slots(top)[i])) == [Some(healDoc)];
  }

  /** Loading that document back, with a registry that knows the three names, rebuilds the same tree. */
  lemma HealLoads(five: Payload, lookup: Lookup)
    requires Resolves(lookup, HealTree(five, 1))
    ensures Decode(lookup, Encode(HealTree(five, 1))) == HealTree(five, 1)
  {
    HealSaves(five);
    RoundTrip(lookup, HealTree(five, 1));
    var top := HealTree(five, 1);
    var heal := Slots(top)[0];
    var lit := Slots(heal)[0];
    assert Normalize(lit) == lit;
    assert seq(|Slots(heal)|, i requires 0 <= i < |Slots(heal)| => Normalize(Slots(heal)[i])) == [lit];
    assert Normalize(heal) == heal;
    assert seq(|Slots(top)|, i requires 0 <= i < |Slots(top)| => Normalize(Slots(top)[i])) == [heal];
  }

  /**
   * A Heal that declares two received types but holds one literal is
   * valid, yet executeFunction would read its second slot out of bounds.
   */
  lemma ShortActionIsValid(five: Payload)
    ensures Closed(HealHeap(five, 2)) && Ranked(HealHeap(five, 2), HealRank) && NullSafe(HealHeap(five, 2), HealRank, 0)
    ensures IsValid(HealHeap(five, 2), HealRank, 0)
    ensures !CanExec(Snapshot(HealHeap(five, 2), HealRank, Some(0)))
  {
    HealIsValid(five, 2);
    HealSnapshot(five, 2);
    var heal := HealAction(five, 2);
    assert Arity(heal.current) == 2 && |Slots(heal)| == 1;
    assert !CanExec(heal);
    assert HealTree(five, 2).next.slots[0] == heal;
  }

  /** An event whose `next` is null: valid, yet executeFunction iterates over the null array. */
  lemma LeafEventIsValid()
    ensures var h := map[0 := TreeNode(Some(Instance(OnUseType, None)), None, None)];
      && Closed(h) && Ranked(h, map[0 := 0]) && NullSafe(h, map[0 := 0], 0)
      && IsValid(h, map[0 := 0], 0)
      && !CanExec(Snapshot(h, map[0 := 0], Some(0)))
  {
  }
}
