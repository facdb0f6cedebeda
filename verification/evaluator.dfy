/**
 * executeFunction: the bottom-up evaluator.
 *
 * The node callbacks (IAction.action, IParameter.getParameter,
 * IPrimitive.getValue) belong to the plugins and are not modelled: an
 * evaluation instead records, in order, every callback it makes and with
 * which arguments. The value a callback hands back is named by its
 * position in that record, so any behaviour of the plugins can be read off
 * the record afterwards.
 */
module Evaluator {
  import opened Wrappers
  import opened NodeKinds
  import opened Trees

  /** The executor and the item a function runs with. */
  datatype Context = Context(executor: Entity, item: Item)

  /** A value flowing up the tree: null, or what the `call`-th callback returned. */
  datatype Value = NullValue | Result(call: nat)

  datatype Call =
    | ActionCall(node: Instance, args: seq<Value>)
    | ParameterCall(node: Instance, args: seq<Value>)
    | PrimitiveCall(node: Instance, executor: Entity, item: Item)
  {
    function Args(): seq<Value> {
      if PrimitiveCall? then [] else args
    }
  }

  /** A value together with every callback made so far. */
  datatype Run = Run(value: Value, trace: seq<Call>)

  /** Every callback argument is the return of an EARLIER callback (or null). */
  ghost predicate Causal(trace: seq<Call>) {
    forall i, j :: 0 <= i < |trace| && 0 <= j < |trace[i].Args()| && trace[i].Args()[j].Result? ==>
      trace[i].Args()[j].call < i
  }

  /** Values that name only calls already in a trace of length n. */
  ghost predicate Before(values: seq<Value>, n: nat) {
    forall j :: 0 <= j < |values| && values[j].Result? ==> values[j].call < n
  }

  /** The first n slots are there to read (an action or parameter reads next[0..arity)). */
  predicate HasArgs(t: Tree, n: nat)
    requires t.Node?
  {
    n == 0 || (t.next.Array? && n <= |t.next.slots|)
  }

  /**
   * The evaluation runs without a null dereference or an index out of
   * bounds: an event's `next` is not null, and an action, or a parameter
   * with children, has at least `arity` slots; the same holds for every
   * child that is evaluated.
   */
  predicate CanExec(t: Tree)
    decreases t
  {
    t.Null? || (
      && (Has(t.current, Event) ==>
            t.next.Array? && forall i :: 0 <= i < |t.next.slots| ==> CanExec(t.next.slots[i]))
      && (Has(t.current, Action) ==>
            HasArgs(t, Arity(t.current)) && forall i :: 0 <= i < Arity(t.current) ==> CanExec(t.next.slots[i]))
      && (!Has(t.current, Action) && Has(t.current, Parameter) && Slots(t) != [] ==>
            HasArgs(t, Arity(t.current)) && forall i :: 0 <= i < Arity(t.current) ==> CanExec(t.next.slots[i])))
  }

  /** Makes one callback: it is appended to the trace and its result names it. */
  function Invoke(call: Call, trace: seq<Call>): (r: Run)
  {
    Run(Result(|trace|), trace + [call])
  }

  /** executeFunction(func, executor, item), run after the callbacks in `trace`. */
  function Exec(t: Tree, ctx: Context, trace: seq<Call>): (r: Run)
    requires CanExec(t)
    ensures trace <= r.trace
    ensures r.value.Result? ==> r.value.call == |r.trace| - 1
    ensures Causal(trace) ==> Causal(r.trace)
    decreases t, 1
  {
    match t
    case Null => Run(NullValue, trace)
    case Node(current, next) =>
      var afterEvent := if Has(current, Event) then ExecArgs(t, |next.slots|, ctx, trace).trace else trace;
      if Has(current, Action) then
        var args := ExecArgs(t, Arity(current), ctx, afterEvent);
        Invoke(ActionCall(current.value, args.values), args.trace)
      else if Slots(t) == [] then
        if Has(current, Primitive) then Invoke(PrimitiveCall(current.value, ctx.executor, ctx.item), afterEvent)
        else Run(NullValue, afterEvent)
      else if Has(current, Parameter) then
        var args := ExecArgs(t, Arity(current), ctx, afterEvent);
        Invoke(ParameterCall(current.value, args.values), args.trace)
      else Run(NullValue, afterEvent)
  }

  datatype Args = Args(values: seq<Value>, trace: seq<Call>)

  /** Evaluates next[0], ..., next[n-1] of `t` from left to right, threading the trace. */
  function ExecArgs(t: Tree, n: nat, ctx: Context, trace: seq<Call>): (r: Args)
    requires t.Node? && HasArgs(t, n)
    requires forall i :: 0 <= i < n ==> CanExec(t.next.slots[i])
    ensures |r.values| == n && trace <= r.trace
    ensures Before(r.values, |r.trace|)
    ensures Causal(trace) ==> Causal(r.trace)
    decreases t, 0, n
  {
    if n == 0 then Args([], trace)
    else
      var before := ExecArgs(t, n - 1, ctx, trace);
      var last := Exec(t.next.slots[n - 1], ctx, before.trace);
      Args(before.values + [last.value], last.trace)
  }

  /**
   * Slot i of the argument array holds the evaluation of next[i], started
   * after next[0..i) were evaluated; evaluating more slots only extends
   * the earlier values.
   */
  lemma {:induction false} ArgumentSlot(t: Tree, n: nat, i: nat, ctx: Context, trace: seq<Call>)
    requires t.Node? && HasArgs(t, n) && i < n
    requires forall k :: 0 <= k < n ==> CanExec(t.next.slots[k])
    ensures ExecArgs(t, n, ctx, trace).values[..i] == ExecArgs(t, i, ctx, trace).values
    ensures ExecArgs(t, i, ctx, trace).trace <= ExecArgs(t, n, ctx, trace).trace
    ensures ExecArgs(t, n, ctx, trace).values[i]
         == Exec(t.next.slots[i], ctx, ExecArgs(t, i, ctx, trace).trace).value
    decreases n
  {
    if i < n - 1 {
      ArgumentSlot(t, n - 1, i, ctx, trace);
      var before := ExecArgs(t, n - 1, ctx, trace);
      assert ExecArgs(t, n, ctx, trace).values == before.values + [Exec(t.next.slots[n - 1], ctx, before.trace).value];
      assert ExecArgs(t, n, ctx, trace).values[..i] == before.values[..i];
    } else {
      assert ExecArgs(t, n, ctx, trace).values[..i] == ExecArgs(t, i, ctx, trace).values;
    }
  }

  /** The trace left by the children of an event, evaluated left to right (or the given trace for a non-event). */
  function AfterEvent(t: Tree, ctx: Context, trace: seq<Call>): (r: seq<Call>)
    requires t.Node? && CanExec(t)
  {
    if Has(t.current, Event) then ExecArgs(t, |t.next.slots|, ctx, trace).trace else trace
  }

  /**
   * An action evaluates its first `arity` children left to right and then
   * makes exactly one callback with their values, in slot order; that
   * callback's return is the result.
   */
  lemma ActionEvaluation(t: Tree, ctx: Context, trace: seq<Call>)
    requires t.Node? && CanExec(t) && Has(t.current, Action)
    ensures var start := AfterEvent(t, ctx, trace);
      var args := ExecArgs(t, Arity(t.current), ctx, start);
      var r := Exec(t, ctx, trace);
      && r.trace == args.trace + [ActionCall(t.current.value, args.values)]
      && r.value == Result(|args.trace|)
      && |args.values| == Arity(t.current)
      && forall i :: 0 <= i < Arity(t.current) ==>
           args.values[i] == Exec(t.next.slots[i], ctx, ExecArgs(t, i, ctx, start).trace).value
  {
    var start := AfterEvent(t, ctx, trace);
    forall i | 0 <= i < Arity(t.current)
      ensures ExecArgs(t, Arity(t.current), ctx, start).values[i]
           == Exec(t.next.slots[i], ctx, ExecArgs(t, i, ctx, start).trace).value
    {
      ArgumentSlot(t, Arity(t.current), i, ctx, start);
    }
  }

  /** A parameter with children does the same with IParameter.getParameter. */
  lemma ParameterEvaluation(t: Tree, ctx: Context, trace: seq<Call>)
    requires t.Node? && CanExec(t) && Has(t.current, Parameter) && !Has(t.current, Action) && Slots(t) != []
    ensures var start := AfterEvent(t, ctx, trace);
      var args := ExecArgs(t, Arity(t.current), ctx, start);
      var r := Exec(t, ctx, trace);
      && r.trace == args.trace + [ParameterCall(t.current.value, args.values)]
      && r.value == Result(|args.trace|)
      && |args.values| == Arity(t.current)
      && forall i :: 0 <= i < Arity(t.current) ==>
           args.values[i] == Exec(t.next.slots[i], ctx, ExecArgs(t, i, ctx, start).trace).value
  {
    var start := AfterEvent(t, ctx, trace);
    forall i | 0 <= i < Arity(t.current)
      ensures ExecArgs(t, Arity(t.current), ctx, start).values[i]
           == Exec(t.next.slots[i], ctx, ExecArgs(t, i, ctx, start).trace).value
    {
      ArgumentSlot(t, Arity(t.current), i, ctx, start);
    }
  }

  /**
   * A null tree yields null and makes no callback. A node without children
   * that is not an action yields the primitive's getValue when it is a
   * primitive, and null otherwise.
   */
  lemma LeafEvaluation(t: Tree, ctx: Context, trace: seq<Call>)
    requires CanExec(t)
    requires t.Node? ==> Slots(t) == [] && !Has(t.current, Action)
    ensures t.Null? ==> Exec(t, ctx, trace) == Run(NullValue, trace)
    ensures t.Node? && Has(t.current, Primitive) ==>
      Exec(t, ctx, trace) == Run(Result(|trace|), trace + [PrimitiveCall(t.current.value, ctx.executor, ctx.item)])
    ensures t.Node? && !Has(t.current, Primitive) ==> Exec(t, ctx, trace) == Run(NullValue, trace)
  {
    if t.Node? && Has(t.current, Event) {
      assert ExecArgs(t, |t.next.slots|, ctx, trace).trace == trace;
    }
  }

  /**
   * An event evaluates every child, in order, before anything else, and
   * when it is nothing but an event its own result is null.
   */
  lemma EventEvaluation(t: Tree, ctx: Context, trace: seq<Call>)
    requires t.Node? && CanExec(t) && Has(t.current, Event)
    ensures ExecArgs(t, |t.next.slots|, ctx, trace).trace <= Exec(t, ctx, trace).trace
    ensures !Has(t.current, Action) && !Has(t.current, Parameter) && !Has(t.current, Primitive) ==>
      Exec(t, ctx, trace) == Run(NullValue, ExecArgs(t, |t.next.slots|, ctx, trace).trace)
  {
  }
}
