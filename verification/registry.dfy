/**
 * The node catalogue (NodesHandler): four maps from a node's class simple
 * name to the registered node object, one per family.
 */
module Registry {
  import opened Wrappers
  import opened NodeKinds

  datatype Family = Events | Actions | Parameters | Primitives

  /**
   * The family a node is filed under; the `instanceof` tests run in the
   * source's order, so an object that is both an action and a parameter is
   * an action. None: the node belongs to no family and is not stored.
   */
  function FamilyOf(node: Instance): (f: Option<Family>)
    ensures f == Some(Actions) <==> Action in node.nodeType.caps
    ensures f == Some(Parameters) <==> Parameter in node.nodeType.caps && Action !in node.nodeType.caps
    ensures f == Some(Primitives) <==>
      Primitive in node.nodeType.caps && Action !in node.nodeType.caps && Parameter !in node.nodeType.caps
    ensures f == Some(Events) <==>
      Event in node.nodeType.caps && Action !in node.nodeType.caps && Parameter !in node.nodeType.caps
      && Primitive !in node.nodeType.caps
  {
    var caps := node.nodeType.caps;
    if Action in caps then Some(Actions)
    else if Parameter in caps then Some(Parameters)
    else if Primitive in caps then Some(Primitives)
    else if Event in caps then Some(Events)
    else None
  }

  /** The contents of the four maps. */
  datatype Catalogue = Catalogue(
    events: map<string, Instance>,
    actions: map<string, Instance>,
    parameters: map<string, Instance>,
    primitives: map<string, Instance>)
  {
    function Map(f: Family): map<string, Instance> {
      match f
      case Events => events
      case Actions => actions
      case Parameters => parameters
      case Primitives => primitives
    }
  }

  const EmptyCatalogue := Catalogue(map[], map[], map[], map[])

  /** putInMap: files `node` under its class simple name, replacing any earlier entry. */
  function PutInMap(m: map<string, Instance>, node: Instance): (r: map<string, Instance>)
    ensures node.nodeType.className in r && r[node.nodeType.className] == node
    ensures r.Keys == m.Keys + {node.nodeType.className}
    ensures forall k :: k in m && k != node.nodeType.className ==> r[k] == m[k]
  {
    m[node.nodeType.className := node]
  }

  /** The catalogue after register(node). */
  function AfterRegister(c: Catalogue, node: Instance): (r: Catalogue)
    ensures FamilyOf(node).None? ==> r == c
    ensures FamilyOf(node).Some? ==>
      && r.Map(FamilyOf(node).value) == PutInMap(c.Map(FamilyOf(node).value), node)
      && forall g :: g != FamilyOf(node).value ==> r.Map(g) == c.Map(g)
  {
    match FamilyOf(node)
    case None => c
    case Some(Actions) => c.(actions := PutInMap(c.actions, node))
    case Some(Parameters) => c.(parameters := PutInMap(c.parameters, node))
    case Some(Primitives) => c.(primitives := PutInMap(c.primitives, node))
    case Some(Events) => c.(events := PutInMap(c.events, node))
  }

  /** The catalogue after the varargs register(nodes...): one register per node, in order. */
  function AfterRegisterAll(c: Catalogue, nodes: seq<Instance>): (r: Catalogue)
    ensures forall f :: c.Map(f).Keys <= r.Map(f).Keys
    ensures forall f :: (forall i :: 0 <= i < |nodes| ==> FamilyOf(nodes[i]) != Some(f)) ==> r.Map(f) == c.Map(f)
  {
    if nodes == [] then c else AfterRegister(AfterRegisterAll(c, nodes[..|nodes| - 1]), nodes[|nodes| - 1])
  }

  /** The last of `nodes` filed under family `f` and key `k`, if any: an independent account of what the catalogue keeps. */
  function LastFiled(nodes: seq<Instance>, f: Family, k: string): (r: Option<Instance>)
    ensures r.Some? ==> r.value in nodes && FamilyOf(r.value) == Some(f) && r.value.nodeType.className == k
    ensures r.None? <==> forall i :: 0 <= i < |nodes| ==> !(FamilyOf(nodes[i]) == Some(f) && nodes[i].nodeType.className == k)
    ensures r.Some? ==>
      exists i :: 0 <= i < |nodes| && nodes[i] == r.value &&
        forall j :: i < j < |nodes| ==> !(FamilyOf(nodes[j]) == Some(f) && nodes[j].nodeType.className == k)
  {
    if nodes == [] then None
    else
      var last := nodes[|nodes| - 1];
      if FamilyOf(last) == Some(f) && last.nodeType.className == k then Some(last)
      else LastFiled(nodes[..|nodes| - 1], f, k)
  }

  /** Registering the same key twice in one family keeps only the second object. */
  lemma LastWriteWins(c: Catalogue, a: Instance, b: Instance)
    requires FamilyOf(a) == FamilyOf(b) && a.nodeType.className == b.nodeType.className
    ensures AfterRegister(AfterRegister(c, a), b) == AfterRegister(c, b)
  {
  }

  /** Registering a node of no family changes nothing. */
  lemma {:induction false} NoFamilyNoChange(c: Catalogue, nodes: seq<Instance>)
    requires forall i :: 0 <= i < |nodes| ==> FamilyOf(nodes[i]).None?
    ensures AfterRegisterAll(c, nodes) == c
  {
    if nodes != [] {
      NoFamilyNoChange(c, nodes[..|nodes| - 1]);
    }
  }

  /** Varargs registration splits at any point: register(xs ++ ys) = register(xs); register(ys). */
  lemma {:induction false} RegisterAllAppend(c: Catalogue, xs: seq<Instance>, ys: seq<Instance>)
    ensures AfterRegisterAll(c, xs + ys) == AfterRegisterAll(AfterRegisterAll(c, xs), ys)
    decreases |ys|
  {
    if ys == [] {
      assert xs + ys == xs;
    } else {
      var ys' := ys[..|ys| - 1];
      assert (xs + ys)[..|xs + ys| - 1] == xs + ys';
      RegisterAllAppend(c, xs, ys');
    }
  }

  /**
   * After registering `nodes`, each map holds at key `k` the last node of
   * that family and class name, or the earlier entry when there is none.
   */
  lemma {:induction false} RegisterAllKeepsLast(c: Catalogue, nodes: seq<Instance>, f: Family, k: string)
    ensures var m := AfterRegisterAll(c, nodes).Map(f);
      && (k in m <==> k in c.Map(f) || LastFiled(nodes, f, k).Some?)
      && (k in m ==> m[k] == if LastFiled(nodes, f, k).Some? then LastFiled(nodes, f, k).value else c.Map(f)[k])
  {
    if nodes != [] {
      RegisterAllKeepsLast(c, nodes[..|nodes| - 1], f, k);
    }
  }

  /**
   * The registry object. Its four fields are replaced on every register;
   * the getters hand out the current map, which, being a value, no later
   * change made by the caller can reach.
   */
  class NodesHandler {
    var events: map<string, Instance>
    var actionMap: map<string, Instance>
    var parameterMap: map<string, Instance>
    var primitiveMap: map<string, Instance>

    function Contents(): Catalogue
      reads this
    {
      Catalogue(events, actionMap, parameterMap, primitiveMap)
    }

    constructor ()
      ensures Contents() == EmptyCatalogue
    {
      events, actionMap, parameterMap, primitiveMap := map[], map[], map[], map[];
    }

    method Register(obj: Instance)
      modifies this
      ensures Contents() == AfterRegister(old(Contents()), obj)
    {
      if Action in obj.nodeType.caps {
        actionMap := PutInMap(actionMap, obj);
      } else if Parameter in obj.nodeType.caps {
        parameterMap := PutInMap(parameterMap, obj);
      } else if Primitive in obj.nodeType.caps {
        primitiveMap := PutInMap(primitiveMap, obj);
      } else if Event in obj.nodeType.caps {
        events := PutInMap(events, obj);
      }
    }

    method RegisterAll(nodes: seq<Instance>)
      modifies this
      ensures Contents() == AfterRegisterAll(old(Contents()), nodes)
    {
      for i := 0 to |nodes|
        invariant Contents() == AfterRegisterAll(old(Contents()), nodes[..i])
      {
        assert nodes[..i + 1][..i] == nodes[..i];
        Register(nodes[i]);
      }
      assert nodes[..|nodes|] == nodes;
    }

    method GetEvents() returns (m: map<string, Instance>)
      ensures m == Contents().Map(Events)
    {
      m := events;
    }

    method GetActionMap() returns (m: map<string, Instance>)
      ensures m == Contents().Map(Actions)
    {
      m := actionMap;
    }

    method GetParameterMap() returns (m: map<string, Instance>)
      ensures m == Contents().Map(Parameters)
    {
      m := parameterMap;
    }

    method GetPrimitiveMap() returns (m: map<string, Instance>)
      ensures m == Contents().Map(Primitives)
    {
      m := primitiveMap;
    }
  }
}
