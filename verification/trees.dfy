/**
 * A function tree read as a value: what a FunctionTree object and the
 * objects below it hold, without the `prev` back-links. Null is Java's
 * null reference (an empty slot); NoArray is a null `next` array.
 */
module Trees {
  import opened Wrappers
  import opened NodeKinds

  datatype Tree = Null | Node(current: Option<Instance>, next: Next)

  datatype Next = NoArray | Array(slots: seq<Tree>)

  /** The children of a node: its `next` array, or none when that array is null. */
  function Slots(t: Tree): (r: seq<Tree>)
    requires t.Node?
  {
    if t.next.Array? then t.next.slots else []
  }

}
