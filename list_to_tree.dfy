/**
 * `listToTree`: a flat list of records becomes a forest.  The first pass
 * makes one node per item in the `map` record, keyed by the item's id (a
 * later item with the same id replaces the node); the second pass pushes each
 * root onto `roots` and every other item's node onto its parent's children.
 * Nodes are shared objects (a node's children array is filled after the node
 * has been pushed), so the forest is given by node id.
 */
module ListToTree {
  import opened JsValues
  import opened JsData

  /** The options record; a `None` key or a `Missing` callback takes its default. */
  datatype Options = Options(idKey: Option<string>, parentKey: Option<string>, childrenKey: Option<string>,
                             transform: Callback<Value>, isRoot: Callback<bool>)

  function IdKey(o: Options): string { if o.idKey.Some? then o.idKey.value else "id" }
  function ParentKey(o: Options): string { if o.parentKey.Some? then o.parentKey.value else "parentId" }
  function ChildrenKey(o: Options): string { if o.childrenKey.Some? then o.childrenKey.value else "children" }

  /** Both callbacks are functions or left to their defaults. */
  predicate Ready(o: Options) { !o.transform.NotFn? && !o.isRoot.NotFn? }

  /** `transform(item)`, by default `{ ...item }`. */
  function Transform(o: Options, item: Value): Value
    requires Ready(o)
  {
    if o.transform.Fn? then o.transform.call(item) else Rec(Spread(item))
  }

  /** `isRoot(item)`, by default `!item[parentKey]`. */
  predicate IsRoot(o: Options, item: Value)
    requires Ready(o)
  {
    if o.isRoot.Fn? then o.isRoot.call(item) else !TruthyValue(Field(item, ParentKey(o)))
  }

  /** A node: the fields of `{ ...transform(item), [childrenKey]: [] }` other than
      the children array, and the ids of the nodes pushed onto that array. */
  datatype TreeNode = TreeNode(fields: map<string, Value>, children: seq<Key>)

  /** The `map` record and the `roots` array. */
  datatype Forest = Forest(nodes: map<Key, TreeNode>, roots: seq<Key>)

  /** A readable item whose id and parent id have a key form the model knows. */
  predicate GoodItem(o: Options, item: Value)
  {
    !IsNil(item) && Keyable(Field(item, IdKey(o))) && Keyable(Field(item, ParentKey(o)))
  }

  /** Ids and parent ids of readable items have a key form the model knows. */
  predicate KeyedItems(o: Options, items: seq<Value>)
  {
    forall i :: 0 <= i < |items| && !IsNil(items[i]) ==> GoodItem(o, items[i])
  }

  predicate NoNil(items: seq<Value>) { forall i :: 0 <= i < |items| ==> !IsNil(items[i]) }

  predicate Clean(o: Options, items: seq<Value>) { forall i :: 0 <= i < |items| ==> GoodItem(o, items[i]) }

  /** What the two passes read from an item: `map` key `node[idKey]`, parent key
      `node[parentKey]`, `isRoot(node)`, and the fields its node is made with
      (its own children array overrides a same-named field of the transformed item). */
  datatype Entry = Entry(id: Key, parent: Key, root: bool, fields: map<string, Value>)

  function EntryOf(o: Options, item: Value): Entry
    requires Ready(o) && GoodItem(o, item)
  {
    Entry(KeyOf(Field(item, IdKey(o))), KeyOf(Field(item, ParentKey(o))), IsRoot(o, item),
          Spread(Transform(o, item)) - {ChildrenKey(o)})
  }

  function Entries(o: Options, items: seq<Value>): (es: seq<Entry>)
    requires Ready(o) && Clean(o, items)
    ensures |es| == |items| && forall i :: 0 <= i < |items| ==> es[i] == EntryOf(o, items[i])
  {
    seq(|items|, i requires 0 <= i < |items| => EntryOf(o, items[i]))
  }

  // ---------------------------------------------------------------------------
  // What the two passes compute

  /** The `map` after the first pass: one childless node per id, the last item's
      for a repeated id. */
  function Registered(es: seq<Entry>): (reg: map<Key, TreeNode>)
    ensures forall k :: k in reg ==> reg[k].children == []
  {
    if es == [] then map[]
    else
      var last := es[|es| - 1];
      Registered(es[..|es| - 1])[last.id := TreeNode(last.fields, [])]
  }

  /** The `map` after the second pass over `es`, starting from `reg`. */
  function Linked(es: seq<Entry>, reg: map<Key, TreeNode>): map<Key, TreeNode>
  {
    if es == [] then reg
    else
      var m := Linked(es[..|es| - 1], reg);
      var last := es[|es| - 1];
      if last.root then m
      else if last.parent in m then m[last.parent := m[last.parent].(children := m[last.parent].children + [last.id])]
      else m
  }

  /** The ids of the root items, in list order. */
  function RootKeys(es: seq<Entry>): seq<Key>
  {
    if es == [] then []
    else RootKeys(es[..|es| - 1]) + (if es[|es| - 1].root then [es[|es| - 1].id] else [])
  }

  /** The ids of the non-root items whose parent id is `p`, in list order. */
  function ChildKeys(es: seq<Entry>, p: Key): seq<Key>
  {
    if es == [] then []
    else
      var last := es[|es| - 1];
      ChildKeys(es[..|es| - 1], p) + (if !last.root && last.parent == p then [last.id] else [])
  }

  // ---------------------------------------------------------------------------
  // The function

  /** One step of the first pass: `map[node[idKey]] = { ...transform(node), [childrenKey]: [] }`. */
  method Register(ghost es: seq<Entry>, nodes: map<Key, TreeNode>, e: Entry)
    returns (ghost es': seq<Entry>, nodes': map<Key, TreeNode>)
    requires nodes == Registered(es)
    ensures es' == es + [e] && nodes' == Registered(es')
  {
    assert (es + [e])[..|es|] == es;
    es' := es + [e];
    nodes' := nodes[e.id := TreeNode(e.fields, [])];
  }

  /** One step of the second pass: a root is pushed onto `roots`, any other item
      onto its parent's children when `map[parentId]` exists. */
  method Link(ghost es: seq<Entry>, ghost i: nat, ghost reg: map<Key, TreeNode>,
              roots: seq<Key>, nodes: map<Key, TreeNode>, e: Entry)
    returns (roots': seq<Key>, nodes': map<Key, TreeNode>)
    requires i < |es| && es[i] == e
    requires roots == RootKeys(es[..i]) && nodes == Linked(es[..i], reg)
    ensures roots' == RootKeys(es[..i + 1]) && nodes' == Linked(es[..i + 1], reg)
  {
    assert es[..i + 1][..i] == es[..i] && es[..i + 1][i] == e;
    roots', nodes' := roots, nodes;
    if e.root {
      roots' := roots + [e.id];
    } else if e.parent in nodes {
      nodes' := nodes[e.parent := nodes[e.parent].(children := nodes[e.parent].children + [e.id])];
    }
  }

  /** `listToTree(list, options)`. */
  method ListToTree(list: Value, o: Options) returns (r: Result<Forest>)
    requires list.Arr? ==> KeyedItems(o, list.items)
    ensures !list.Arr? ==> r == Throw(TypeError("Expected an array of items"))
    ensures list.Arr? && list.items == [] ==> r == Ok(Forest(map[], []))
    ensures list.Arr? && list.items != [] && o.transform.NotFn? ==>
              r == Throw(TypeError("Expected transform to be a function"))
    ensures list.Arr? && list.items != [] && !o.transform.NotFn? && o.isRoot.NotFn? ==>
              r == Throw(TypeError("Expected isRoot to be a function"))
    ensures list.Arr? && list.items != [] && Ready(o) ==>
              (r.Ok? <==> NoNil(list.items)) && (r.Throw? ==> r.error == NilRead)
    ensures r.Ok? && list.Arr? && Ready(o) && Clean(o, list.items) ==>
              var es := Entries(o, list.items);
              && r.value.roots == RootKeys(es)
              && r.value.nodes.Keys == Registered(es).Keys
              && forall k :: k in r.value.nodes ==> r.value.nodes[k] == TreeNode(Registered(es)[k].fields, ChildKeys(es, k))
  {
    if !list.Arr? {
      return Throw(TypeError("Expected an array of items"));
    }
    var items := list.items;
    if |items| == 0 {
      return Ok(Forest(map[], []));
    }
    if o.transform.NotFn? {
      return Throw(TypeError("Expected transform to be a function"));
    }
    if o.isRoot.NotFn? {
      return Throw(TypeError("Expected isRoot to be a function"));
    }

    var registered := FirstPass(o, items);
    if registered.Throw? {
      return Throw(registered.error);
    }
    var forest := SecondPass(o, items, registered.value);
    LinkedChildren(Entries(o, items), registered.value);
    return Ok(forest);
  }

  /** `for (const node of list) map[node[idKey]] = { ...transform(node), [childrenKey]: [] }`;
      reading the id of a null or undefined item throws. */
  method FirstPass(o: Options, items: seq<Value>) returns (r: Result<map<Key, TreeNode>>)
    requires Ready(o) && KeyedItems(o, items)
    ensures r.Ok? <==> NoNil(items)
    ensures r.Throw? ==> r.error == NilRead
    ensures r.Ok? ==> Clean(o, items) && r.value == Registered(Entries(o, items))
  {
    var nodes: map<Key, TreeNode> := map[];
    ghost var es: seq<Entry> := [];
    var i := 0;
    while i < |items|
      invariant 0 <= i <= |items| && Clean(o, items[..i])
      invariant es == Entries(o, items[..i])
      invariant nodes == Registered(es)
    {
      var item := items[i];
      if IsNil(item) {
        assert !NoNil(items);
        return Throw(NilRead);
      }
      ItemGood(o, items, i);
      CleanStep(o, items, i);
      var e := EntryOf(o, item);
      es, nodes := Register(es, nodes, e);
      i := i + 1;
    }
    assert items[..i] == items;
    return Ok(nodes);
  }

  lemma ItemGood(o: Options, items: seq<Value>, i: nat)
    requires KeyedItems(o, items) && i < |items| && !IsNil(items[i])
    ensures GoodItem(o, items[i])
  {
  }

  lemma CleanStep(o: Options, items: seq<Value>, i: nat)
    requires Ready(o) && i < |items| && Clean(o, items[..i]) && GoodItem(o, items[i])
    ensures Clean(o, items[..i + 1])
    ensures Entries(o, items[..i + 1]) == Entries(o, items[..i]) + [EntryOf(o, items[i])]
  {
    assert items[..i + 1] == items[..i] + [items[i]];
  }

  /** `for (const node of list) isRoot(node) ? roots.push(...) : map[parentId]?.[childrenKey].push(...)`. */
  method SecondPass(o: Options, items: seq<Value>, registered: map<Key, TreeNode>) returns (f: Forest)
    requires Ready(o) && Clean(o, items)
    ensures f == Forest(Linked(Entries(o, items), registered), RootKeys(Entries(o, items)))
  {
    ghost var es := Entries(o, items);
    var nodes := registered;
    var roots: seq<Key> := [];
    var i := 0;
    while i < |items|
      invariant 0 <= i <= |items|
      invariant roots == RootKeys(es[..i])
      invariant nodes == Linked(es[..i], registered)
    {
      var e := EntryOf(o, items[i]);
      roots, nodes := Link(es, i, registered, roots, nodes, e);
      i := i + 1;
    }
    assert es[..|items|] == es;
    return Forest(nodes, roots);
  }

  // ---------------------------------------------------------------------------
  // Properties

  /** The second pass keeps the nodes and their fields and appends to each node
      the ids of its children in list order. */
  lemma {:induction false} LinkedChildren(es: seq<Entry>, reg: map<Key, TreeNode>)
    ensures Linked(es, reg).Keys == reg.Keys
    ensures forall k :: k in reg ==> Linked(es, reg)[k] == TreeNode(reg[k].fields, reg[k].children + ChildKeys(es, k))
  {
    if es != [] {
      LinkedChildren(es[..|es| - 1], reg);
    }
  }

  /** The nodes are exactly one per distinct id in the list. */
  lemma {:induction false} RegisteredKeys(es: seq<Entry>)
    ensures Registered(es).Keys == set i | 0 <= i < |es| :: es[i].id
  {
    if es != [] {
      var init := es[..|es| - 1];
      RegisteredKeys(init);
      assert forall i :: 0 <= i < |init| ==> init[i] == es[i];
    }
  }

  /** When ids repeat, the node comes from the last item carrying that id. */
  lemma {:induction false} LaterReplaces(es: seq<Entry>, j: nat)
    requires j < |es| && forall i :: j < i < |es| ==> es[i].id != es[j].id
    ensures es[j].id in Registered(es) && Registered(es)[es[j].id] == TreeNode(es[j].fields, [])
  {
    var init := es[..|es| - 1];
    if j < |es| - 1 {
      assert init[j] == es[j];
      forall i | j < i < |init| ensures init[i].id != init[j].id {
        assert init[i] == es[i];
      }
      LaterReplaces(init, j);
    }
  }

  /** Roots of a concatenation: the roots of each part, in order. */
  lemma {:induction false} RootKeysAppend(a: seq<Entry>, b: seq<Entry>)
    ensures RootKeys(a + b) == RootKeys(a) + RootKeys(b)
  {
    if b != [] {
      assert (a + b)[..|a + b| - 1] == a + b[..|b| - 1];
      RootKeysAppend(a, b[..|b| - 1]);
    } else {
      assert a + b == a;
    }
  }

  /** Children lists of a concatenation concatenate. */
  lemma {:induction false} ChildKeysAppend(a: seq<Entry>, b: seq<Entry>, p: Key)
    ensures ChildKeys(a + b, p) == ChildKeys(a, p) + ChildKeys(b, p)
  {
    if b != [] {
      assert (a + b)[..|a + b| - 1] == a + b[..|b| - 1];
      ChildKeysAppend(a, b[..|b| - 1], p);
    } else {
      assert a + b == a;
    }
  }

  /** An id is among the roots exactly when some item carrying it satisfies `isRoot`. */
  lemma {:induction false} RootsExactly(es: seq<Entry>, k: Key)
    ensures k in RootKeys(es) <==> exists i :: 0 <= i < |es| && es[i].root && es[i].id == k
  {
    if es != [] {
      var init := es[..|es| - 1];
      RootsExactly(init, k);
      assert forall i :: 0 <= i < |init| ==> init[i] == es[i];
    }
  }

  /** An id is among `p`'s children exactly when some non-root item carrying it names `p` as parent. */
  lemma {:induction false} ChildrenExactly(es: seq<Entry>, p: Key, k: Key)
    ensures k in ChildKeys(es, p) <==> exists i :: 0 <= i < |es| && !es[i].root && es[i].parent == p && es[i].id == k
  {
    if es != [] {
      var init := es[..|es| - 1];
      ChildrenExactly(init, p, k);
      assert forall i :: 0 <= i < |init| ==> init[i] == es[i];
    }
  }

  /** A non-root item whose parent id names no node is dropped: removing it
      from the list changes neither the roots nor any node's children. */
  lemma OrphanDropped(es: seq<Entry>, j: nat)
    requires j < |es| && !es[j].root && es[j].parent !in Registered(es)
    ensures RootKeys(es) == RootKeys(es[..j] + es[j + 1..])
    ensures forall p :: p in Registered(es) ==> ChildKeys(es, p) == ChildKeys(es[..j] + es[j + 1..], p)
  {
    var a, e, b := es[..j], es[j], es[j + 1..];
    SplitAt(es, j);
    SkipRoot(a, e, b);
    forall p | p in Registered(es)
      ensures ChildKeys(es, p) == ChildKeys(a + b, p)
    {
      assert p != e.parent;
      SkipChild(a, e, b, p);
    }
  }

  lemma SplitAt(es: seq<Entry>, j: nat)
    requires j < |es|
    ensures es == (es[..j] + [es[j]]) + es[j + 1..]
  {
  }

  lemma SkipRoot(a: seq<Entry>, e: Entry, b: seq<Entry>)
    requires !e.root
    ensures RootKeys((a + [e]) + b) == RootKeys(a + b)
  {
    assert (a + [e])[..|a|] == a;
    RootKeysAppend(a + [e], b);
    RootKeysAppend(a, b);
  }

  lemma SkipChild(a: seq<Entry>, e: Entry, b: seq<Entry>, p: Key)
    requires e.root || e.parent != p
    ensures ChildKeys((a + [e]) + b, p) == ChildKeys(a + b, p)
  {
    assert (a + [e])[..|a|] == a;
    ChildKeysAppend(a + [e], b, p);
    ChildKeysAppend(a, b, p);
  }
}
