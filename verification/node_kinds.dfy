/**
 * The node-type instances a function tree is built from.
 *
 * A Java node object implements any subset of the marker interfaces
 * INode, IEvent, IAction, IParameter, IPrimitive, TruePrimitive,
 * IReceiveAbleNode and IReturningNode; every `instanceof` test of the
 * source becomes a membership test on the instance's capability set.
 */
module NodeKinds {
  import opened Wrappers

  /** The literal a TruePrimitive stores (a Java Object); left abstract. */
  type Payload(==)

  /** The host's LivingEntity and ItemStack, passed through to primitives. */
  type Entity(==)
  type Item(==)

  datatype Capability =
    | AnyNode       // INode
    | Event         // IEvent
    | Action        // IAction
    | Parameter     // IParameter
    | Primitive     // IPrimitive
    | TruePrimitive // TruePrimitive: a primitive holding a stored literal
    | Receivable    // IReceiveAbleNode
    | Returning     // IReturningNode

  /**
   * A node kind: `key` is what INode.getKey() returns, `className` what
   * getClass().getSimpleName() returns, and `arity` the length of
   * getReceivedTypes().
   */
  datatype NodeType = NodeType(key: string, className: string, caps: set<Capability>, arity: nat)

  /** A node object: its kind and, for a TruePrimitive, its stored literal (null when unset). */
  datatype Instance = Instance(nodeType: NodeType, stored: Option<Payload>)

  /** `current instanceof C`, where `current` may be null. */
  predicate Has(current: Option<Instance>, c: Capability) {
    current.Some? && c in current.value.nodeType.caps
  }

  /** `getReceivedTypes().length` of a present node. */
  function Arity(current: Option<Instance>): nat {
    if current.Some? then current.value.nodeType.arity else 0
  }
}
