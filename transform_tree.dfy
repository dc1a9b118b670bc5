/**
 * `transformTree`: maps every node of a tree (an array of nodes) through
 * `transformer`, rebuilding the children of each object result under
 * `childKey`, and filters each level of results when a filter is given.
 */
module TransformTree {
  import opened JsValues
  import opened JsData

  datatype Options = Options(childKey: Option<string>, childProp: Option<string>, filter: Callback<bool>)

  function ChildKey(o: Options): string
  {
    if o.childKey.Some? then o.childKey.value else "children"
  }

  function ChildProp(o: Options): string
  {
    if o.childProp.Some? then o.childProp.value else "children"
  }

  /** What calling `.map` on a child list that is not an array throws. */
  const NotMappable: JsError := TypeError("subTree.map is not a function")

  /** `result.filter(filter)` when `filter` is a function, else `result`. */
  function Kept(o: Options, items: seq<Value>): (r: seq<Value>)
    ensures o.filter.Fn? ==> forall i :: 0 <= i < |r| ==> o.filter.call(r[i])
    ensures forall i :: 0 <= i < |r| ==> r[i] in items
    ensures !o.filter.Fn? ==> r == items
  {
    if !o.filter.Fn? || items == [] then items
    else
      var rest := Kept(o, items[1..]);
      assert forall i :: 0 <= i < |rest| ==> rest[i] in items by {
        assert forall y :: y in items[1..] ==> y in items;
      }
      if o.filter.call(items[0]) then [items[0]] + rest else rest
  }

  ghost predicate Below(nodes: seq<Value>, parent: Value)
  {
    forall i :: 0 <= i < |nodes| ==> nodes[i] < parent
  }

  /** `node[childProp]?.length` is truthy. */
  predicate HasKids(o: Options, node: Value)
  {
    TruthyValue(Field(Field(node, ChildProp(o)), "length"))
  }

  /** `_transform(subTree)`: the mapped level, filtered. */
  function Level(o: Options, f: Value -> Value, nodes: seq<Value>, parent: Value): Result<seq<Value>>
    requires Below(nodes, parent)
    decreases parent, 2
  {
    match Mapped(o, f, nodes, parent)
    case Throw(e) => Throw(e)
    case Ok(items) => Ok(Kept(o, items))
  }

  /** `subTree.map(...)`: every node's item in order, or the first error. */
  function Mapped(o: Options, f: Value -> Value, nodes: seq<Value>, parent: Value): Result<seq<Value>>
    requires Below(nodes, parent)
    decreases parent, 1, |nodes|
  {
    if nodes == [] then Ok([])
    else
      match Item(o, f, nodes[0], parent)
      case Throw(e) => Throw(e)
      case Ok(item) =>
        match Mapped(o, f, nodes[1..], parent)
        case Throw(e) => Throw(e)
        case Ok(rest) => Ok([item] + rest)
  }

  /** The item made from one node: `transformer(node)`, and when that is an
      object and the node has children, the transformed children under
      `childKey` (an array result keeps its elements: a property written onto
      an array is not part of this value model). */
  function Item(o: Options, f: Value -> Value, node: Value, parent: Value): Result<Value>
    requires node < parent
    decreases parent, 0
  {
    var item := f(node);
    if !(item.Rec? || item.Arr?) then Ok(item)
    else if IsNil(node) then Throw(NilRead)
    else if !HasKids(o, node) then Ok(item)
    else
      var cs := Field(node, ChildProp(o));
      if !cs.Arr? then Throw(NotMappable)
      else
        FieldBelow(node, ChildProp(o));
        match Level(o, f, cs.items, node)
        case Throw(e) => Throw(e)
        case Ok(kids) => Ok(if item.Rec? then Rec(item.fields[ChildKey(o) := Arr(kids)]) else item)
  }

  /** `transformTree(tree, transformer, options)`. */
  function TransformTree(tree: Value, transformer: Callback<Value>, o: Options): (r: Result<Value>)
    ensures !tree.Arr? ==> r == Ok(Arr([]))
    ensures tree.Arr? && !transformer.Fn? ==> r == Ok(tree)
  {
    if !tree.Arr? then Ok(Arr([]))
    else if !transformer.Fn? then Ok(tree)
    else
      match Level(o, transformer.call, tree.items, tree)
      case Throw(e) => Throw(e)
      case Ok(items) => Ok(Arr(items))
  }

  // ---------------------------------------------------------------------------
  // Properties

  /** Without a filter a level keeps its length and order: item `i` is made
      from node `i`. */
  lemma {:induction false} SameShape(o: Options, f: Value -> Value, nodes: seq<Value>, parent: Value)
    requires Below(nodes, parent) && !o.filter.Fn?
    requires Level(o, f, nodes, parent).Ok?
    ensures var items := Level(o, f, nodes, parent).value;
            |items| == |nodes| &&
            forall i :: 0 <= i < |nodes| ==> Item(o, f, nodes[i], parent) == Ok(items[i])
  {
    MappedItems(o, f, nodes, parent);
  }

  lemma {:induction false} MappedItems(o: Options, f: Value -> Value, nodes: seq<Value>, parent: Value)
    requires Below(nodes, parent) && Mapped(o, f, nodes, parent).Ok?
    ensures var items := Mapped(o, f, nodes, parent).value;
            |items| == |nodes| &&
            forall i :: 0 <= i < |nodes| ==> Item(o, f, nodes[i], parent) == Ok(items[i])
    decreases |nodes|
  {
    if nodes != [] {
      MappedItems(o, f, nodes[1..], parent);
      var items := Mapped(o, f, nodes, parent).value;
      forall i | 1 <= i < |nodes| ensures Item(o, f, nodes[i], parent) == Ok(items[i]) {
        assert nodes[i] == nodes[1..][i - 1];
      }
    }
  }

  /** With a filter every kept item satisfies it and is the item of some node
      of the level. */
  lemma FilteredItems(o: Options, f: Value -> Value, nodes: seq<Value>, parent: Value)
    requires Below(nodes, parent) && Level(o, f, nodes, parent).Ok?
    ensures var items := Level(o, f, nodes, parent).value;
            forall i :: 0 <= i < |items| ==>
              (o.filter.Fn? ==> o.filter.call(items[i])) &&
              exists j :: 0 <= j < |nodes| && Item(o, f, nodes[j], parent) == Ok(items[i])
  {
    MappedItems(o, f, nodes, parent);
    var all := Mapped(o, f, nodes, parent).value;
    var items := Level(o, f, nodes, parent).value;
    forall i | 0 <= i < |items|
      ensures exists j :: 0 <= j < |nodes| && Item(o, f, nodes[j], parent) == Ok(items[i])
    {
      var j :| 0 <= j < |all| && all[j] == items[i];
      assert Item(o, f, nodes[j], parent) == Ok(items[i]);
    }
  }

  /** An object item of a node with an array of children carries the
      transformed children under `childKey` and keeps every other field. */
  lemma ChildrenWritten(o: Options, f: Value -> Value, node: Value, parent: Value)
    requires node < parent && Item(o, f, node, parent).Ok?
    requires f(node).Rec? && HasKids(o, node)
    ensures var cs := Field(node, ChildProp(o));
            cs.Arr? && Below(cs.items, node) &&
            var r := Item(o, f, node, parent).value;
            && Level(o, f, cs.items, node).Ok?
            && r == Rec(f(node).fields[ChildKey(o) := Arr(Level(o, f, cs.items, node).value)])
  {
    FieldBelow(node, ChildProp(o));
  }

  /** A non-object result, or a node without children, is left as the
      transformer returned it: no `childKey` field is added. */
  lemma NoChildrenAdded(o: Options, f: Value -> Value, node: Value, parent: Value)
    requires node < parent
    requires !(f(node).Rec? || f(node).Arr?) || (!IsNil(node) && !HasKids(o, node))
    ensures Item(o, f, node, parent) == Ok(f(node))
  {
  }

  /** A node whose child list is an empty array gets no `childKey` field. */
  lemma EmptyChildren(o: Options, f: Value -> Value, node: Value, parent: Value)
    requires node < parent && !IsNil(node) && Field(node, ChildProp(o)) == Arr([])
    ensures Item(o, f, node, parent) == Ok(f(node))
  {
  }
}
