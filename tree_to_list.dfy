/**
 * `treeToList`: flattens a tree (an array of nodes, or one node) into a list
 * with an explicit stack.  Each popped node is copied by `transform`, its
 * children key is deleted from the copy unless `removeChildren` is false, and
 * its children are pushed from right to left so that they are popped left to
 * right.
 */
module TreeToList {
  import opened JsValues
  import opened JsData

  /** A `removeChildren` of `undefined` counts as left out. */
  datatype Options = Options(childrenKey: Option<string>, removeChildren: Value, transform: Callback<Value>)

  function ChildrenKey(o: Options): string
  {
    if o.childrenKey.Some? then o.childrenKey.value else "children"
  }

  predicate RemoveChildren(o: Options)
  {
    o.removeChildren == Undef || TruthyValue(o.removeChildren)
  }

  /** The model covers children keys that are not array indexes: with one, a
      one-character string node is its own child and the traversal never ends. */
  predicate Supported(o: Options)
  {
    !IsArrayIndex(ChildrenKey(o))
  }

  /** `transform(node)`, by default `{ ...node }`. */
  function Transform(o: Options, node: Value): Value
    requires !o.transform.NotFn?
  {
    if o.transform.Fn? then o.transform.call(node) else Rec(Spread(node))
  }

  /** `delete v[k]` in strict code, for a key that is not an array index. */
  function Delete(v: Value, k: string): (r: Result<Value>)
    requires !IsArrayIndex(k)
    ensures v.Rec? ==> r == Ok(Rec(v.fields - {k}))
    ensures IsNil(v) <==> r == Throw(TypeError("Cannot convert undefined or null to object"))
    ensures r.Ok? && !v.Rec? ==> r.value == v
  {
    match v
    case Rec(fs) => Ok(Rec(fs - {k}))
    case Arr(_) => if k == "length" then Throw(TypeError("Cannot delete property 'length' of [object Array]")) else Ok(v)
    case Prim(p) =>
      if IsNil(v) then Throw(TypeError("Cannot convert undefined or null to object"))
      else if p.Str? && k == "length" then Throw(TypeError("Cannot delete property 'length' of [object String]"))
      else Ok(v)
    case Func => Ok(v)
  }

  /** `newNode`: the transformed copy, with the children key deleted when asked. */
  function NewNode(o: Options, node: Value): Result<Value>
    requires !o.transform.NotFn? && Supported(o)
  {
    if RemoveChildren(o) then Delete(Transform(o, node), ChildrenKey(o)) else Ok(Transform(o, node))
  }

  /** `node[childrenKey]` read as a child list when it is truthy. */
  function Children(o: Options, node: Value): seq<Value>
  {
    var c := Field(node, ChildrenKey(o));
    if TruthyValue(c) then Elements(c) else []
  }

  /** Only arrays and records have children, and each is a primitive or a part
      of its parent. */
  lemma ChildrenBelow(o: Options, node: Value)
    requires Supported(o)
    ensures forall i :: 0 <= i < |Children(o, node)| ==> Children(o, node)[i].Prim? || Children(o, node)[i] < node
    ensures !node.Arr? && !node.Rec? ==> Children(o, node) == []
  {
    if node.Arr? || node.Rec? {
      forall i | 0 <= i < |Children(o, node)| ensures Children(o, node)[i].Prim? || Children(o, node)[i] < node {
        ChildBelow(node, ChildrenKey(o), i);
      }
    } else {
      NoChildren(node, ChildrenKey(o));
    }
  }

  // ---------------------------------------------------------------------------
  // The order nodes are visited in

  /** The preorder of the subtree at `node`: the node, then its children's
      subtrees left to right. */
  function Flat(o: Options, node: Value): (r: seq<Value>)
    requires Supported(o)
    ensures |r| > 0 && r[0] == node
    decreases node, 1
  {
    ChildrenBelow(o, node);
    [node] + FlatAll(o, Children(o, node), node)
  }

  /** The preorders of the subtrees at `cs`, children of `parent`, left to right
      (a primitive child has no children of its own). */
  function FlatAll(o: Options, cs: seq<Value>, parent: Value): seq<Value>
    requires Supported(o) && forall i :: 0 <= i < |cs| ==> cs[i].Prim? || cs[i] < parent
    decreases parent, 0, |cs|
  {
    if cs == [] then []
    else (if cs[0].Prim? then [cs[0]] else Flat(o, cs[0])) + FlatAll(o, cs[1..], parent)
  }

  /** A primitive node is a leaf. */
  lemma FlatLeaf(o: Options, p: Prim)
    requires Supported(o)
    ensures Flat(o, Prim(p)) == [Prim(p)]
  {
    ChildrenBelow(o, Prim(p));
  }

  /** The nodes popped from `stack` from now on: the top's subtree first. */
  function Emit(o: Options, stack: seq<Value>): seq<Value>
    requires Supported(o)
  {
    if stack == [] then [] else Flat(o, stack[|stack| - 1]) + Emit(o, stack[..|stack| - 1])
  }

  /** `[...tree]` for an array, `[tree]` for a single node. */
  function TopLevel(tree: Value): seq<Value>
  {
    if tree.Arr? then tree.items else [tree]
  }

  function Reverse(s: seq<Value>): seq<Value>
  {
    if s == [] then [] else Reverse(s[1..]) + [s[0]]
  }

  /** What the loop produces from a sequence of popped nodes: the copies in
      order, or the first error, which is `transform`/`delete` failing or the
      read of `node[childrenKey]` on a null or undefined node. */
  function Run(o: Options, nodes: seq<Value>): Result<seq<Value>>
    requires !o.transform.NotFn? && Supported(o)
  {
    if nodes == [] then Ok([])
    else
      match NewNode(o, nodes[0])
      case Throw(e) => Throw(e)
      case Ok(n) =>
        if IsNil(nodes[0]) then Throw(NilRead)
        else Prepend([n], Run(o, nodes[1..]))
  }

  function Prepend(xs: seq<Value>, r: Result<seq<Value>>): Result<seq<Value>>
  {
    if r.Ok? then Ok(xs + r.value) else r
  }

  // ---------------------------------------------------------------------------
  // The function

  /** `for (let i = children.length - 1; i >= 0; i--) stack.push(children[i])`. */
  method PushChildren(stack: seq<Value>, cs: seq<Value>) returns (stack': seq<Value>)
    ensures stack' == stack + Reverse(cs)
  {
    stack' := stack;
    var i := |cs|;
    while i > 0
      invariant 0 <= i <= |cs| && stack' == stack + Reverse(cs[i..])
    {
      i := i - 1;
      assert cs[i..] == [cs[i]] + cs[i + 1..];
      ReverseCons(cs[i], cs[i + 1..]);
      stack' := stack' + [cs[i]];
    }
  }

  /** `treeToList(tree, options)`. */
  method TreeToList(tree: Value, o: Options) returns (r: Result<seq<Value>>)
    requires Supported(o)
    ensures !(tree.Arr? || tree.Rec?) ==> r == Throw(TypeError("tree must be an object or array"))
    ensures (tree.Arr? || tree.Rec?) && o.transform.NotFn? ==> r == Throw(TypeError("transform must be a function"))
    ensures (tree.Arr? || tree.Rec?) && !o.transform.NotFn? ==> r == Run(o, Emit(o, TopLevel(tree)))
  {
    if !(tree.Arr? || tree.Rec?) {
      return Throw(TypeError("tree must be an object or array"));
    }
    if o.transform.NotFn? {
      return Throw(TypeError("transform must be a function"));
    }
    var stack := TopLevel(tree);
    var list: seq<Value> := [];
    PrependNil(Run(o, Emit(o, stack)));
    while |stack| > 0
      invariant Run(o, Emit(o, TopLevel(tree))) == Prepend(list, Run(o, Emit(o, stack)))
      decreases |Emit(o, stack)|
    {
      var node := stack[|stack| - 1];
      ghost var before := stack;
      stack := stack[..|stack| - 1];
      var n := NewNode(o, node);
      if n.Throw? || IsNil(node) {
        PopFails(o, before);
        return Throw(if n.Throw? then n.error else NilRead);
      }
      list := list + [n.value];
      var cs := Children(o, node);
      stack := PushChildren(stack, cs);
      PopStep(o, before, cs);
      RunStep(o, node, Emit(o, stack), list[..|list| - 1]);
    }
    assert list + [] == list;
    return Ok(list);
  }

  // ---------------------------------------------------------------------------
  // Properties

  /** A node that cannot be copied ends the run with its error. */
  lemma PopFails(o: Options, stack: seq<Value>)
    requires !o.transform.NotFn? && Supported(o) && stack != []
    requires var n := stack[|stack| - 1]; NewNode(o, n).Throw? || IsNil(n)
    ensures var n := stack[|stack| - 1];
            Run(o, Emit(o, stack)) == Throw(if NewNode(o, n).Throw? then NewNode(o, n).error else NilRead)
  {
    assert Emit(o, stack)[0] == stack[|stack| - 1];
  }

  /** Popping the top and pushing its children right to left leaves the same
      nodes still to come, less the top. */
  lemma PopStep(o: Options, stack: seq<Value>, cs: seq<Value>)
    requires Supported(o) && stack != [] && cs == Children(o, stack[|stack| - 1])
    ensures Emit(o, stack) == [stack[|stack| - 1]] + Emit(o, stack[..|stack| - 1] + Reverse(cs))
  {
    var top, init := stack[|stack| - 1], stack[..|stack| - 1];
    ChildrenBelow(o, top);
    assert Emit(o, stack) == Flat(o, top) + Emit(o, init);
    assert Flat(o, top) == [top] + FlatAll(o, cs, top);
    PushReversed(o, init, cs, top);
    Assoc([top], FlatAll(o, cs, top), Emit(o, init));
  }

  lemma {:induction false} PushReversed(o: Options, s: seq<Value>, cs: seq<Value>, parent: Value)
    requires Supported(o) && forall i :: 0 <= i < |cs| ==> cs[i].Prim? || cs[i] < parent
    ensures Emit(o, s + Reverse(cs)) == FlatAll(o, cs, parent) + Emit(o, s)
  {
    if cs != [] {
      var c, rest := cs[0], cs[1..];
      var t := s + Reverse(rest);
      PushSplit(s, cs);
      PopTop(o, t, c);
      FlatAllCons(o, cs, parent);
      PushReversed(o, s, rest, parent);
      Assoc(Flat(o, c), FlatAll(o, rest, parent), Emit(o, s));
    } else {
      assert s + Reverse(cs) == s;
    }
  }

  lemma PushSplit(s: seq<Value>, cs: seq<Value>)
    requires cs != []
    ensures s + Reverse(cs) == (s + Reverse(cs[1..])) + [cs[0]]
  {
    Assoc(s, Reverse(cs[1..]), [cs[0]]);
  }

  /** The first child's subtree, then the others'. */
  lemma FlatAllCons(o: Options, cs: seq<Value>, parent: Value)
    requires Supported(o) && cs != [] && forall i :: 0 <= i < |cs| ==> cs[i].Prim? || cs[i] < parent
    ensures forall i :: 0 <= i < |cs[1..]| ==> cs[1..][i].Prim? || cs[1..][i] < parent
    ensures FlatAll(o, cs, parent) == Flat(o, cs[0]) + FlatAll(o, cs[1..], parent)
  {
    assert forall i :: 0 <= i < |cs[1..]| ==> cs[1..][i] == cs[i + 1];
    if cs[0].Prim? {
      FlatLeaf(o, cs[0].p);
    }
  }

  /** Running one more node that can be copied moves its copy onto the list. */
  lemma RunStep(o: Options, node: Value, rest: seq<Value>, list: seq<Value>)
    requires !o.transform.NotFn? && Supported(o) && NewNode(o, node).Ok? && !IsNil(node)
    ensures Prepend(list, Run(o, [node] + rest)) == Prepend(list + [NewNode(o, node).value], Run(o, rest))
  {
    assert ([node] + rest)[0] == node && ([node] + rest)[1..] == rest;
    var r := Run(o, rest);
    if r.Ok? {
      Assoc(list, [NewNode(o, node).value], r.value);
    }
  }

  lemma PrependNil(r: Result<seq<Value>>)
    ensures Prepend([], r) == r
  {
    if r.Ok? {
      assert [] + r.value == r.value;
    }
  }

  lemma Assoc(a: seq<Value>, b: seq<Value>, c: seq<Value>)
    ensures (a + b) + c == a + (b + c)
  {
  }

  lemma PopTop(o: Options, s: seq<Value>, c: Value)
    requires Supported(o)
    ensures Emit(o, s + [c]) == Flat(o, c) + Emit(o, s)
  {
    assert (s + [c])[..|s|] == s;
  }

  lemma ReverseCons(c: Value, s: seq<Value>)
    ensures Reverse([c] + s) == Reverse(s) + [c]
  {
    assert ([c] + s)[1..] == s;
  }

  /** The run succeeds exactly when every visited node can be copied and read,
      and then it lists their copies, one per visited node, in visiting order. */
  lemma {:induction false} RunOk(o: Options, nodes: seq<Value>)
    requires !o.transform.NotFn? && Supported(o)
    ensures Run(o, nodes).Ok? <==> forall i :: 0 <= i < |nodes| ==> NewNode(o, nodes[i]).Ok? && !IsNil(nodes[i])
    ensures Run(o, nodes).Ok? ==>
              |Run(o, nodes).value| == |nodes| &&
              forall i :: 0 <= i < |nodes| ==> Run(o, nodes).value[i] == NewNode(o, nodes[i]).value
  {
    if nodes != [] {
      RunOk(o, nodes[1..]);
      if Run(o, nodes).Ok? {
        assert forall i :: 1 <= i < |nodes| ==> nodes[i] == nodes[1..][i - 1];
      } else if NewNode(o, nodes[0]).Ok? && !IsNil(nodes[0]) {
        var i :| 0 <= i < |nodes[1..]| && !(NewNode(o, nodes[1..][i]).Ok? && !IsNil(nodes[1..][i]));
        assert nodes[1..][i] == nodes[i + 1];
      }
    }
  }

  /** With `removeChildren` on and the default transform, no emitted copy has
      the children key; with it off, every copy is the transform's result. */
  lemma RemovedOrKept(o: Options, node: Value)
    requires !o.transform.NotFn? && Supported(o)
    ensures RemoveChildren(o) && o.transform.Missing? ==>
              NewNode(o, node).Ok? && NewNode(o, node).value.Rec? && ChildrenKey(o) !in NewNode(o, node).value.fields
    ensures !RemoveChildren(o) ==> NewNode(o, node) == Ok(Transform(o, node))
  {
  }

  /** A run over nodes that copy to `copies` yields them. */
  lemma {:induction false} RunPrepends(o: Options, nodes: seq<Value>, copies: seq<Value>)
    requires !o.transform.NotFn? && Supported(o) && |copies| == |nodes|
    requires forall i :: 0 <= i < |nodes| ==> !IsNil(nodes[i]) && NewNode(o, nodes[i]) == Ok(copies[i])
    ensures Run(o, nodes) == Ok(copies)
  {
    if nodes != [] {
      assert forall i :: 0 <= i < |nodes[1..]| ==> nodes[1..][i] == nodes[i + 1] && copies[1..][i] == copies[i + 1];
      RunPrepends(o, nodes[1..], copies[1..]);
      assert [copies[0]] + copies[1..] == copies;
    }
  }

  /** The default copy of a record without a children key is the record. */
  lemma KeptAsIs(o: Options, node: Value)
    requires o.transform.Missing? && Supported(o) && node.Rec? && ChildrenKey(o) !in node.fields
    ensures NewNode(o, node) == Ok(node)
  {
    assert node.fields - {ChildrenKey(o)} == node.fields;
  }

  /** The documentation's example tree, `[{1, [2, 3]}, {4}]`. */
  predicate ExampleNodes(n1: Value, n2: Value, n3: Value, n4: Value)
  {
    && n2 == Rec(map["id" := Prim(Num(2))]) && n3 == Rec(map["id" := Prim(Num(3))])
    && n4 == Rec(map["id" := Prim(Num(4))])
    && n1 == Rec(map["id" := Prim(Num(1)), "children" := Arr([n2, n3])])
  }

  lemma ExampleChildren(n1: Value, n2: Value, n3: Value, n4: Value)
    requires ExampleNodes(n1, n2, n3, n4)
    ensures var o := Options(None, Undef, Missing);
            Children(o, n2) == [] && Children(o, n3) == [] && Children(o, n4) == [] && Children(o, n1) == [n2, n3]
  {
    assert n1.fields["children"].items[0] == n2 && n1.fields["children"].items[1] == n3;
  }

  lemma ExampleFlat(n1: Value, n2: Value, n3: Value, n4: Value)
    requires ExampleNodes(n1, n2, n3, n4)
    ensures var o := Options(None, Undef, Missing);
            Flat(o, n4) == [n4] && Flat(o, n1) == [n1, n2, n3]
  {
    var o := Options(None, Undef, Missing);
    ExampleChildren(n1, n2, n3, n4);
    assert Flat(o, n2) == [n2] && Flat(o, n3) == [n3] && Flat(o, n4) == [n4];
    assert [n2, n3][1..] == [n3] && [n3][1..] == [];
    assert FlatAll(o, [n3], n1) == [n3];
    assert FlatAll(o, [n2, n3], n1) == [n2, n3];
  }

  lemma ExampleEmit(n1: Value, n2: Value, n3: Value, n4: Value)
    requires ExampleNodes(n1, n2, n3, n4)
    ensures var o := Options(None, Undef, Missing);
            Emit(o, TopLevel(Arr([n1, n4]))) == [n4, n1, n2, n3]
  {
    var o := Options(None, Undef, Missing);
    ExampleFlat(n1, n2, n3, n4);
    assert [n1, n4][..1] == [n1] && [n1][..0] == [];
    assert Emit(o, [n1]) == [n1, n2, n3];
  }

  /** The order from the documentation: `[{1, [2, 3]}, {4}]` is flattened to
      `[4, 1, 2, 3]`, each copy without its `children`. */
  lemma OrderExample(n1: Value, n2: Value, n3: Value, n4: Value)
    requires ExampleNodes(n1, n2, n3, n4)
    ensures var o := Options(None, Undef, Missing);
            Run(o, Emit(o, TopLevel(Arr([n1, n4])))) == Ok([n4, Rec(map["id" := Prim(Num(1))]), n2, n3])
  {
    var o := Options(None, Undef, Missing);
    ExampleEmit(n1, n2, n3, n4);
    ExampleCopies(n1, n2, n3, n4);
    RunPrepends(o, [n4, n1, n2, n3], [n4, Rec(map["id" := Prim(Num(1))]), n2, n3]);
  }

  /** The copy of `{1, [2, 3]}` drops its `children`. */
  lemma ExampleTopCopy(n1: Value, n2: Value, n3: Value)
    requires n1 == Rec(map["id" := Prim(Num(1)), "children" := Arr([n2, n3])])
    ensures NewNode(Options(None, Undef, Missing), n1) == Ok(Rec(map["id" := Prim(Num(1))]))
  {
    var c1 := Rec(map["id" := Prim(Num(1))]);
    assert Spread(n1) - {"children"} == c1.fields;
  }

  lemma ExampleCopies(n1: Value, n2: Value, n3: Value, n4: Value)
    requires ExampleNodes(n1, n2, n3, n4)
    ensures var o, nodes, copies := Options(None, Undef, Missing), [n4, n1, n2, n3], [n4, Rec(map["id" := Prim(Num(1))]), n2, n3];
            forall i :: 0 <= i < |nodes| ==> !IsNil(nodes[i]) && NewNode(o, nodes[i]) == Ok(copies[i])
  {
    var o := Options(None, Undef, Missing);
    ExampleTopCopy(n1, n2, n3);
    KeptAsIs(o, n2);
    KeptAsIs(o, n3);
    KeptAsIs(o, n4);
  }
}
