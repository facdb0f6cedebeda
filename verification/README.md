# Function trees and the node registry of MCCustomCreation

MCCustomCreation lets players compose item behaviour from nodes: events
(triggers), actions (effects), parameters and primitives (value
producers). A composed behaviour is a *function tree*. Each `FunctionTree`
object holds a node object (`current`), an array of child trees (`next`)
and a back-link to its parent (`prev`). This project models:

- `FunctionTree`:
  - the evaluator `executeFunction`;
  - the validity check `isValid`;
  - `serialize` (with `putDefaultTreeValues`) and `deserialize`;
  - `getFather` and `isInTree`;
  - the constructors and setters.
- `NodesHandler`: the catalogue that files every registered node under
  its family (action, parameter, primitive or event) and its class simple
  name.

## How the model is built

- **Node kinds** (`NodeKinds`):
  - A Java node object is an `Instance`. It holds a `NodeType` (key, class
    simple name, capability set, arity) and, for a TruePrimitive, the
    stored literal.
  - Each `instanceof X` test becomes a membership test in the capability
    set.
- **Objects** (`Arena`, `FunctionTrees`):
  - The FunctionTree objects form a heap `map<Id, TreeNode>` held by the
    class `FunctionTrees.Forest`.
  - The constructors allocate a new `Id`. The setters replace one entry.
  - Shared children, cyclic `prev` chains and any other shape Java
    references allow can all be written down in this form. The recursive
    operations are specified only on heaps whose `next` links below the
    start contain no cycle (see "## Left out").
  - A ghost `rank` map witnesses that the objects below a node form a
    finite tree.
  - `Snapshot` reads the objects below a reference as a value of type
    `Trees.Tree`.
- **Evaluation** (`Evaluator`):
  - `Exec` is the recursive definition of `executeFunction` on a `Tree`.
    `Forest.ExecuteFunction` is the imperative version, with its loops,
    proved equal to `Exec`.
  - The plugin callbacks (`IAction.action`, `IParameter.getParameter`,
    `IPrimitive.getValue`) are host code. An evaluation therefore records
    each callback, in order, with its arguments. The value a callback
    returns is named by its position in that record (`Result(i)`).
- **Documents** (`Serializer`):
  - The `Map<String,Object>` documents are `Document` values with the
    keys "Name", "Value" and "Values".
  - `Encode` and `Decode` specify `Forest.Serialize` and
    `Forest.Deserialize`.
  - `NodesHandler.getNodeByName`, which deserialize calls, is a function
    parameter of type `Lookup`.
- **Registry** (`Registry`): `Registry.NodesHandler` is a class with the
  four maps as fields. `AfterRegister` and `AfterRegisterAll` specify its
  methods.
- **Worked example** (`Scenarios`): the OnUse → Heal(NumberLiteral = 5)
  function, and two valid trees that executeFunction cannot run.

## What the code does not check

The model follows the code as written.

- **isValid ignores the arity.** The tree editor gives a receiving node
  one child slot per received type: GUI_ChooseGUI.java:117 allocates
  `next` with `getReceivedTypes().length` entries. `isValid` does not
  check that. It only checks that `next` is non-null, non-empty and has
  no null element. It never compares the length with
  `getReceivedTypes().length`.
  - `Scenarios.ShortActionIsValid` exhibits a valid tree whose Heal action
    expects two arguments but holds one child. executeFunction reads
    `next[1]` of that tree and throws ArrayIndexOutOfBoundsException.
- **A leaf event with a null `next` is valid.** executeFunction iterates
  over that null array and throws NullPointerException.
  - `Scenarios.LeafEventIsValid` exhibits such a tree.
- So a valid tree is not always one that executeFunction can run.
  `Evaluator.Exec` therefore carries the precondition `CanExec`. `CanExec`
  states exactly when no null dereference and no out-of-bounds read
  happens.

## Model

| member | source | states |
|---|---|---|
| Registry.FamilyOf | MCCustomCreation/src/main/java/Nodes/NodesHandler.java:57-66 | a node is filed as an action iff it is an IAction, as a parameter iff a non-action IParameter, as a primitive iff an IPrimitive that is neither, as an event iff an IEvent that is none of these; otherwise nowhere |
| Registry.PutInMap | MCCustomCreation/src/main/java/Nodes/NodesHandler.java:68-70 | the node is stored under its class simple name, the key set grows by exactly that name, and every other entry is kept |
| Registry.AfterRegister | MCCustomCreation/src/main/java/Nodes/NodesHandler.java:57-66 | registering changes only the map of the node's family, by putInMap; a node of no family changes nothing |
| Registry.AfterRegisterAll | MCCustomCreation/src/main/java/Nodes/NodesHandler.java:52-55 | varargs registration never removes a name from any map, and leaves unchanged every map to which none of the nodes belongs |
| Registry.LastFiled | MCCustomCreation/src/main/java/Nodes/NodesHandler.java:52-55 | an independent account of varargs registration: the node of the list with a given family and name that no later node of the list matches (the last such node), or nothing exactly when no node of the list has that family and name |
| Registry.LastWriteWins | MCCustomCreation/src/main/java/Nodes/NodesHandler.java:68-70 | registering two nodes of the same family and class name leaves the catalogue as if only the second had been registered |
| Registry.NoFamilyNoChange | MCCustomCreation/src/main/java/Nodes/NodesHandler.java:57-66 | registering only nodes that belong to no family leaves the catalogue unchanged |
| Registry.RegisterAllAppend | MCCustomCreation/src/main/java/Nodes/NodesHandler.java:52-55 | registering xs followed by ys in one call equals two successive calls |
| Registry.RegisterAllKeepsLast | MCCustomCreation/src/main/java/Nodes/NodesHandler.java:52-70 | after register(nodes...), a family's map holds a name iff it held it before or some node of that family and name was registered, and then holds the last such node |
| Registry.NodesHandler.constructor | MCCustomCreation/src/main/java/Nodes/NodesHandler.java:41-46 | the four maps start empty |
| Registry.NodesHandler.Register | MCCustomCreation/src/main/java/Nodes/NodesHandler.java:57-66 | the new contents are AfterRegister of the old contents |
| Registry.NodesHandler.RegisterAll | MCCustomCreation/src/main/java/Nodes/NodesHandler.java:52-55 | the loop registers the nodes one by one, in order; the new contents are AfterRegisterAll of the old |
| Registry.NodesHandler.GetEvents | MCCustomCreation/src/main/java/Nodes/NodesHandler.java:76-78 | returns the events map as it is now, as a value the caller cannot use to change the registry |
| Registry.NodesHandler.GetActionMap | MCCustomCreation/src/main/java/Nodes/NodesHandler.java:84-86 | returns the actions map as it is now, as a value |
| Registry.NodesHandler.GetParameterMap | MCCustomCreation/src/main/java/Nodes/NodesHandler.java:92-94 | returns the parameters map as it is now, as a value |
| Registry.NodesHandler.GetPrimitiveMap | MCCustomCreation/src/main/java/Nodes/NodesHandler.java:100-102 | returns the primitives map as it is now, as a value |
| Evaluator.Exec | MCCustomCreation/src/main/java/Nodes/FunctionTree.java:41-75 | evaluation only appends callbacks; a non-null result is the return of the last callback made; every callback argument is the return of an earlier callback or null |
| Evaluator.ExecArgs | MCCustomCreation/src/main/java/Nodes/FunctionTree.java:50-51 | the argument array has one entry per received type; every entry is null or names a callback in the record as it stands once the whole array is filled; that each entry names a callback made while its own slot was evaluated is ArgumentSlot's contract |
| Evaluator.ArgumentSlot | MCCustomCreation/src/main/java/Nodes/FunctionTree.java:50-51 | values[i] is the evaluation of next[i], started after next[0..i) were evaluated; evaluating more slots only extends the earlier values |
| Evaluator.ActionEvaluation | MCCustomCreation/src/main/java/Nodes/FunctionTree.java:47-54 | an action evaluates its first arity children left to right, then makes exactly one action callback with their values in slot order, and returns that callback's result |
| Evaluator.ParameterEvaluation | MCCustomCreation/src/main/java/Nodes/FunctionTree.java:65-71 | a non-action parameter with children does the same with a getParameter callback |
| Evaluator.LeafEvaluation | MCCustomCreation/src/main/java/Nodes/FunctionTree.java:56-61 | a null tree gives null with no callback; a childless non-action gives the primitive's getValue (called with the executor and item) when it is a primitive, and null otherwise |
| Evaluator.EventEvaluation | MCCustomCreation/src/main/java/Nodes/FunctionTree.java:44-46 | an event evaluates all its children first, in order; a node that is only an event then returns null |
| Validator.IsValid | MCCustomCreation/src/main/java/Nodes/FunctionTree.java:258-305 | a valid tree has an INode as its current object |
| Validator.EventValidity | MCCustomCreation/src/main/java/Nodes/FunctionTree.java:276-288 | an event is valid iff it has no prev and its next array is null or empty, or has no null element and only valid children |
| Validator.NonEventValidity | MCCustomCreation/src/main/java/Nodes/FunctionTree.java:289-304 | an INode that is not an event is valid iff a receivable one has a non-empty next with no null element, a returning one has a prev whose current object is receivable, and every child is present and valid |
| Validator.ChildOfValid | MCCustomCreation/src/main/java/Nodes/FunctionTree.java:300-302 | each slot of a valid node holds a valid object |
| Validator.ValidThroughout | MCCustomCreation/src/main/java/Nodes/FunctionTree.java:267-305 | every object reachable below a valid node is itself valid, so the check holds from whichever node it is started |
| Navigation.IsInTree | MCCustomCreation/src/main/java/Nodes/FunctionTree.java:112-123 | isInTree(obj, current): false on a null tree, true when current is obj, and otherwise true iff some child's search succeeds |
| Navigation.IsInTreeIffReachable | MCCustomCreation/src/main/java/Nodes/FunctionTree.java:102-123 | isInTree(obj) holds iff obj is a non-null object reachable from the tree through next slots, comparing by identity |
| Serializer.PutDefaultTreeValues | MCCustomCreation/src/main/java/Nodes/FunctionTree.java:221-225 | for a node object that is an INode (the cast at line 223 succeeds), only the "Name" key may change: it reads back as the node's key; without a node object "Name" is left as it was; "Value" and "Values" are untouched |
| Serializer.Encode | MCCustomCreation/src/main/java/Nodes/FunctionTree.java:170-186 | null iff the tree or its current object is null; otherwise a well-shaped document named by the key: a TruePrimitive has its stored value under "Value", any other node has "Values" null for no children and otherwise one entry per slot |
| Serializer.Decode | MCCustomCreation/src/main/java/Nodes/FunctionTree.java:195-214 | null iff the document is null; the node object is the looked-up one, and for a TruePrimitive that object with "Value" as its stored literal, and no next array; otherwise next is null exactly when "Values" is null or empty |
| Serializer.Normalize | MCCustomCreation/src/main/java/Nodes/FunctionTree.java:170-214 | what a save and load keeps: null exactly for a null tree or a null node object; the same node objects; next is null exactly for a TruePrimitive or a node without children, and otherwise has one slot per original slot |
| Serializer.RoundTrip | MCCustomCreation/src/main/java/Nodes/FunctionTree.java:170-214 | deserialize(serialize(t)) rebuilds t up to Normalize, when the lookup maps each key back to its node |
| Serializer.EncodeNormalize | MCCustomCreation/src/main/java/Nodes/FunctionTree.java:170-186 | serialize cannot tell a tree from its normal form |
| Serializer.SaveLoadSave | MCCustomCreation/src/main/java/Nodes/FunctionTree.java:170-214 | saving what was loaded from a save gives the same document |
| Serializer.NormalizeIdempotent | MCCustomCreation/src/main/java/Nodes/FunctionTree.java:170-214 | a second save and load changes nothing further |
| FunctionTrees.Forest.NewTree | MCCustomCreation/src/main/java/Nodes/FunctionTree.java:83-87 | a fresh object with the given fields; no existing object changes |
| FunctionTrees.Forest.NewLeaf | MCCustomCreation/src/main/java/Nodes/FunctionTree.java:93-95 | a fresh object with null next and prev |
| FunctionTrees.Forest.SetCurrent | MCCustomCreation/src/main/java/Nodes/FunctionTree.java:129-131 | only the current field of that object changes |
| FunctionTrees.Forest.SetNext | MCCustomCreation/src/main/java/Nodes/FunctionTree.java:137-139 | only the next field of that object changes |
| FunctionTrees.Forest.SetPrev | MCCustomCreation/src/main/java/Nodes/FunctionTree.java:146-148 | only the prev field of that object changes |
| FunctionTrees.Forest.GetFather | MCCustomCreation/src/main/java/Nodes/FunctionTree.java:150-155 | the result is reached from the object by following prev links and has no prev; an object without prev is its own father |
| FunctionTrees.Forest.ExecuteFunction | MCCustomCreation/src/main/java/Nodes/FunctionTree.java:41-75 | the returned value and the callbacks made are exactly those of Exec on the tree below func |
| FunctionTrees.Forest.ExecuteArguments | MCCustomCreation/src/main/java/Nodes/FunctionTree.java:49-51 | the filled argument array and the callbacks are exactly those of ExecArgs |
| FunctionTrees.Forest.Serialize | MCCustomCreation/src/main/java/Nodes/FunctionTree.java:161-186 | the document built is Encode of the tree below the reference |
| FunctionTrees.Forest.Deserialize | MCCustomCreation/src/main/java/Nodes/FunctionTree.java:195-214 | only new objects are created; the tree below the result is Decode of the document; the result's prev is the given one; every new child points back at its parent |
| FunctionTrees.Forest.DeserializeChildren | MCCustomCreation/src/main/java/Nodes/FunctionTree.java:207-210 | slot i holds a fresh object deserialized from the i-th record, in order, each pointing back at the new parent |
| Scenarios.HealShape | MCCustomCreation/src/main/java/Nodes/FunctionTree.java:83-87 | the three objects OnUse → Heal → NumberLiteral, linked by next and prev, form a finite tree without null children |
| Scenarios.HealIsValid | MCCustomCreation/src/main/java/Nodes/FunctionTree.java:267-305 | OnUse → Heal(NumberLiteral) is valid, whatever number of received types Heal declares |
| Scenarios.HealSnapshot | MCCustomCreation/src/main/java/Nodes/FunctionTree.java:83-87 | the objects below OnUse hold exactly the function OnUse → Heal(NumberLiteral) |
| Scenarios.HealActionRuns | MCCustomCreation/src/main/java/Nodes/FunctionTree.java:47-54 | Heal first asks the literal for its value, then calls the action with that value, and returns the action's result |
| Scenarios.HealRuns | MCCustomCreation/src/main/java/Nodes/FunctionTree.java:41-75 | running it asks the literal for its value, then calls Heal with that value, and returns null |
| Scenarios.HealSaves | MCCustomCreation/src/main/java/Nodes/FunctionTree.java:170-186 | it serializes to {Name: OnUse, Values: [{Name: Heal, Values: [{Name: NumberLiteral, Value: 5}]}]} |
| Scenarios.HealLoads | MCCustomCreation/src/main/java/Nodes/FunctionTree.java:195-214 | loading that document rebuilds the same tree |
| Scenarios.ShortActionIsValid | MCCustomCreation/src/main/java/Nodes/FunctionTree.java:290-305 | a Heal that declares two received types but holds one child is valid, yet executeFunction cannot evaluate it |
| Scenarios.LeafEventIsValid | MCCustomCreation/src/main/java/Nodes/FunctionTree.java:276-288 | an event with a null next is valid, yet cannot be evaluated |

## Left out

- Evaluator.Exec: the plugin callbacks are host code. Their results are named symbolically (`Result(i)`), not computed, and their side effects on the game are not modelled.
- Evaluator.Exec, FunctionTrees.Forest.ExecuteFunction: the null dereference and out-of-bounds read that executeFunction can raise are a precondition (`CanExec`), not an error path.
- Validator.IsValid: the null dereference on a null child is a precondition (`NullSafe`). NullSafe is stronger than needed in two ways. Java stops at the first invalid child, so it never reaches a null slot after that child. And NullSafe demands that a node that is neither an event nor receivable has no null slot, even when Java returns false before reading that node's children. Example: a node whose capabilities are only INode and IReturningNode, with a null prev and `next = [null]`. Java returns false at FunctionTree.java:295 without a NullPointerException, but NullSafe excludes this node.
- Navigation.IsInTreeIffReachable: the null `next` array that isInTree would iterate over is a precondition (`Searchable`). Searchable is likewise stronger than needed after the object has been found.
- Serializer.PutDefaultTreeValues, Serializer.Encode, FunctionTrees.Forest.Serialize: the ClassCastException for a current object that is not an INode is a precondition (`Encodable`).
- FunctionTrees.Forest.ExecuteFunction, FunctionTrees.Forest.Serialize, Validator.IsValid, Navigation.IsInTree: all of these require `Ranked`, which means the objects below the start form a finite tree. Every `next` cycle below the start is therefore excluded. That includes cycles through slots the Java code never reads, where Java does terminate. Examples of such slots are those beyond an action's or parameter's arity, the children of a node that executeFunction returns null for at line 73, the children of a node that isValid rejects before reaching them, and the rest of the search once isInTree has found obj. Java overflows the stack (StackOverflowError) only on a cycle it actually follows. The model states nothing about heaps with any such cycle.
- FunctionTrees.Forest.GetFather: a cyclic prev chain would loop forever, so the method requires that the chain ends (`ReachesRoot`).
- FunctionTrees.Forest.Deserialize: the ClassCastException for a non-string "Name" or a non-list "Values" cannot occur, because the document's fields are typed.
- FunctionTrees.Forest.Deserialize: a TruePrimitive's literal is stored on the node object of that tree. The model does not capture whether getNodeByName hands out a shared object, which setValue would then change for every tree holding it.
- NodesHandler.getNodeByName is not part of this model. Deserialize takes it as the parameter `lookup`.
- The getters getCurrent, getNext and getPrev are plain field reads, written as `trees[t].current`, `trees[t].next` and `trees[t].prev`.
- A `next` array is held as a sequence of references. Writes into an array object that several trees share (through getNext()[i] = ...) are not modelled.
- toString is not modelled: it only renders the tree as text.
- Java serialization (`implements Serializable`) is not modelled.
- HashMap iteration order is not modelled.
- The NodesHandler singleton INSTANCE is not modelled; any number of registries may exist.
- Class simple names come from reflection (`getClass().getSimpleName()`); here they are a field of the node kind.
- The GUI that builds trees and the player-data persistence are not modelled.
