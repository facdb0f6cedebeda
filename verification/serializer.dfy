/**
 * serialize / deserialize: a function tree as a nested document of
 * string-keyed maps with the keys "Name", "Value" and "Values".
 */
module Serializer {
  import opened Wrappers
  import opened NodeKinds
  import opened Trees

  /** A map key: missing, mapped to null, or mapped to a value. */
  datatype Entry<T> = Absent | NullEntry | Present(v: T)

  /** The "Values" key: missing, null, or a list whose elements may be null. */
  datatype ValuesEntry = NoValues | NullValues | ValuesList(records: seq<Option<Document>>)

  /** One serialized node: its "Name", "Value" and "Values" keys. */
  datatype Document = Document(name: Entry<string>, value: Entry<Payload>, values: ValuesEntry)

  const EmptyDocument := Document(Absent, Absent, NoValues)

  /** map.get(key): a missing key and a null one both read as null. */
  function Get<T>(e: Entry<T>): (r: Option<T>)
    ensures r.Some? <==> e.Present?
  {
    if e.Present? then Some(e.v) else None
  }

  /** map.put(key, x) with a possibly null x. */
  function Put<T>(x: Option<T>): (e: Entry<T>)
    ensures Get(e) == x && !e.Absent?
  {
    if x.Some? then Present(x.value) else NullEntry
  }

  /** The "Values" list as (List) map.get("Values"). */
  function Records(d: Document): (r: Option<seq<Option<Document>>>) {
    if d.values.ValuesList? then Some(d.values.records) else None
  }

  /** putDefaultTreeValues: records the node's key under "Name" when there is a node. */
  function PutDefaultTreeValues(current: Option<Instance>, d: Document): (r: Document)
    requires current.Some? ==> Has(current, AnyNode)
    ensures r.value == d.value && r.values == d.values
    ensures current.Some? ==> Get(r.name) == Some(current.value.nodeType.key)
    ensures current.None? ==> r.name == d.name
  {
    if current.Some? then d.(name := Present(current.value.nodeType.key)) else d
  }

  /** Every node the serializer visits is an INode (the cast in putDefaultTreeValues succeeds). */
  predicate Encodable(t: Tree)
    decreases t
  {
    t.Null? || t.current.None? || (
      && Has(t.current, AnyNode)
      && forall i :: 0 <= i < |Slots(t)| ==> Encodable(Slots(t)[i]))
  }

  /**
   * The shape of a serialized node: a "Name"; then for a TruePrimitive a
   * "Value" and no "Values"; otherwise no "Value" and "Values" either null
   * or a non-empty list of such documents (null for null children).
   */
  predicate WellShaped(d: Document)
    decreases d
  {
    && d.name.Present?
    && (d.value.Absent? <==> !d.values.NoValues?)
    && (d.values.ValuesList? ==>
          && d.values.records != []
          && forall i :: 0 <= i < |d.values.records| && d.values.records[i].Some? ==>
               WellShaped(d.values.records[i].value))
  }

  /** serialize(tree). */
  function Encode(t: Tree): (r: Option<Document>)
    requires Encodable(t)
    ensures r.None? <==> t.Null? || t.current.None?
    ensures r.Some? ==> WellShaped(r.value) && r.value.name == Present(t.current.value.nodeType.key)
    ensures r.Some? ==> (r.value.value.Present? || r.value.value.NullEntry? <==> Has(t.current, TruePrimitive))
    ensures r.Some? && Has(t.current, TruePrimitive) ==> Get(r.value.value) == t.current.value.stored
    ensures r.Some? && !Has(t.current, TruePrimitive) ==>
      (r.value.values.NullValues? <==> Slots(t) == [])
      && (r.value.values.ValuesList? ==> |r.value.values.records| == |Slots(t)|)
    decreases t
  {
    if t.Null? || t.current.None? then None
    else
      var d := PutDefaultTreeValues(t.current, EmptyDocument);
      var values := seq(|Slots(t)|, i requires 0 <= i < |Slots(t)| => Encode(Slots(t)[i]));
      if Has(t.current, TruePrimitive) then Some(d.(value := Put(t.current.value.stored)))
      else Some(d.(values := if values == [] then NullValues else ValuesList(values)))
  }

  /** getNodeByName: the node object registered under a name (or null); not modelled beyond this. */
  type Lookup = Option<string> -> Option<Instance>

  /** deserialize(prev, map), without the `prev` links (those are stated on the heap). */
  function Decode(lookup: Lookup, d: Option<Document>): (r: Tree)
    ensures r.Null? <==> d.None?
    ensures r.Node? ==> r.current.Some? == lookup(Get(d.value.name)).Some?
    ensures r.Node? && Has(r.current, TruePrimitive) ==>
      r.next.NoArray? && r.current == Some(lookup(Get(d.value.name)).value.(stored := Get(d.value.value)))
    ensures r.Node? && !Has(r.current, TruePrimitive) ==>
      (r.next.NoArray? <==> Records(d.value).None? || Records(d.value).value == [])
      && r.current == lookup(Get(d.value.name))
    decreases d
  {
    if d.None? then Null
    else
      var current := lookup(Get(d.value.name));
      if Has(current, TruePrimitive) then Node(Some(current.value.(stored := Get(d.value.value))), NoArray)
      else
        var list := Records(d.value);
        if list.None? || list.value == [] then Node(current, NoArray)
        else Node(current, Array(seq(|list.value|, i requires 0 <= i < |list.value| => Decode(lookup, list.value[i]))))
  }

  /**
   * What survives a save and a load: a node without a node object becomes
   * a null slot, a TruePrimitive keeps its stored value and loses its
   * children, and an empty `next` array becomes a null one.
   */
  function Normalize(t: Tree): (r: Tree)
    ensures r.Null? <==> t.Null? || t.current.None?
    ensures r.Node? ==> r.current == t.current && (r.next.Array? ==> |Slots(r)| == |Slots(t)| > 0)
    ensures r.Node? ==> (r.next.NoArray? <==> Has(t.current, TruePrimitive) || Slots(t) == [])
    decreases t
  {
    if t.Null? || t.current.None? then Null
    else if Has(t.current, TruePrimitive) || Slots(t) == [] then Node(t.current, NoArray)
    else Node(t.current, Array(seq(|Slots(t)|, i requires 0 <= i < |Slots(t)| => Normalize(Slots(t)[i]))))
  }

  /**
   * The lookup gives back, under each node's key, an object of the same
   * kind: the very object for nodes that store nothing, and one whose
   * stored value is then overwritten for a TruePrimitive.
   */
  predicate Resolves(lookup: Lookup, t: Tree)
    decreases t
  {
    t.Null? || t.current.None? || (
      var found := lookup(Some(t.current.value.nodeType.key));
      && found.Some? && found.value.nodeType == t.current.value.nodeType
      && (TruePrimitive !in t.current.value.nodeType.caps ==>
            && found == t.current
            && forall i :: 0 <= i < |Slots(t)| ==> Resolves(lookup, Slots(t)[i])))
  }

  /**
   * Round trip: deserializing what serialize produced rebuilds the tree up
   * to Normalize -- the same node objects and keys, the same children in
   * the same order, the same stored literals.
   */
  lemma {:induction false} RoundTrip(lookup: Lookup, t: Tree)
    requires Encodable(t) && Resolves(lookup, t)
    ensures Decode(lookup, Encode(t)) == Normalize(t)
    decreases t
  {
    if t.Node? && t.current.Some? && !Has(t.current, TruePrimitive) && Slots(t) != [] {
      var d := Encode(t);
      var list := d.value.values.records;
      forall i | 0 <= i < |Slots(t)|
        ensures Decode(lookup, list[i]) == Normalize(Slots(t)[i])
      {
        RoundTrip(lookup, Slots(t)[i]);
      }
      assert Slots(Decode(lookup, d)) == Slots(Normalize(t));
    }
  }

  /** Serialize cannot tell a tree from its normal form. */
  lemma {:induction false} EncodeNormalize(t: Tree)
    requires Encodable(t)
    ensures Encodable(Normalize(t)) && Encode(Normalize(t)) == Encode(t)
    decreases t
  {
    if t.Node? && t.current.Some? && !Has(t.current, TruePrimitive) && Slots(t) != [] {
      forall i | 0 <= i < |Slots(t)|
        ensures Encodable(Normalize(Slots(t)[i])) && Encode(Normalize(Slots(t)[i])) == Encode(Slots(t)[i])
      {
        EncodeNormalize(Slots(t)[i]);
      }
      assert Encode(Normalize(t)).value.values == Encode(t).value.values;
    }
  }

  /** A saved document is a fixed point: load then save gives it back unchanged. */
  lemma SaveLoadSave(lookup: Lookup, t: Tree)
    requires Encodable(t) && Resolves(lookup, t)
    ensures Encodable(Decode(lookup, Encode(t)))
    ensures Encode(Decode(lookup, Encode(t))) == Encode(t)
  {
    RoundTrip(lookup, t);
    EncodeNormalize(t);
  }

  /** Normalizing twice changes nothing more. */
  lemma {:induction false} NormalizeIdempotent(t: Tree)
    ensures Normalize(Normalize(t)) == Normalize(t)
    decreases t
  {
    if t.Node? && t.current.Some? && !Has(t.current, TruePrimitive) && Slots(t) != [] {
      forall i | 0 <= i < |Slots(t)|
        ensures Normalize(Normalize(Slots(t)[i])) == Normalize(Slots(t)[i])
      {
        NormalizeIdempotent(Slots(t)[i]);
      }
      assert Slots(Normalize(Normalize(t))) == Slots(Normalize(t));
    }
  }
}
