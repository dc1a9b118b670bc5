/**
 * `findPath`: the path from a root of a tree (an array of nodes) down to the
 * first node, in preorder, that the target matches.  Each node on the path is
 * reported through `transformer`, by default `node[key]`.
 */
module FindPath {
  import opened JsValues
  import opened JsData

  /** The `options` argument: a string (taken as `{ key: options }`), an
      options object, or nothing (`undefined`, `null` or another falsy value). */
  datatype FindOptions =
    | KeyName(name: string)
    | Given(key: Option<string>, children: Option<string>, transformer: Callback<Value>)
    | NoOptions

  /** The value searched for: a validator function, or a primitive compared by
      `===` with `node[key]`. */
  datatype Target = Validator(test: Value -> bool) | Match(p: Prim)

  /** The settings the search runs with once the defaults are applied; a
      transformer of `None` is the default `node => node[key]`. */
  datatype Config = Config(key: string, children: string, transformer: Option<Value -> Value>, target: Target)

  function Settings(options: FindOptions, value: Target): (c: Config)
    ensures options.NoOptions? ==> c == Config("value", "children", None, value)
  {
    var o := if options.KeyName? then Given(Some(options.name), None, Missing) else options;
    match o
    case Given(key, children, transformer) =>
      Config(if key.Some? then key.value else "value",
             if children.Some? then children.value else "children",
             if transformer.Fn? then Some(transformer.call) else None,
             value)
    case _ => Config("value", "children", None, value)
  }

  /** `validator(node)`: reading `node[key]` from null or undefined throws. */
  function Test(c: Config, node: Value): Result<bool>
  {
    match c.target
    case Validator(f) => Ok(f(node))
    case Match(p) =>
      if IsNil(node) then Throw(NilRead)
      else Ok(Field(node, c.key).Prim? && StrictEquals(Field(node, c.key).p, p))
  }

  /** `transformer(node)`. */
  function Transformed(c: Config, node: Value): Result<Value>
  {
    if c.transformer.Some? then Ok(c.transformer.value(node))
    else if IsNil(node) then Throw(NilRead)
    else Ok(Field(node, c.key))
  }

  /** `node[children]` when it is a non-empty array, which the search descends into. */
  predicate HasChildList(c: Config, node: Value)
  {
    var cs := Field(node, c.children);
    cs.Arr? && |cs.items| > 0
  }

  lemma ChildListBelow(c: Config, node: Value)
    requires HasChildList(c, node)
    ensures forall i :: 0 <= i < |Field(node, c.children).items| ==> Field(node, c.children).items[i] < node
  {
    FieldBelow(node, c.children);
  }

  ghost predicate Below(nodes: seq<Value>, parent: Value)
  {
    forall i :: 0 <= i < |nodes| ==> nodes[i] < parent
  }

  // ---------------------------------------------------------------------------
  // The search, as a function

  /** The nodes from a member of `nodes` down to the first match in preorder:
      a node is tested before its children, siblings left to right, and the
      subtree of a matching node is not entered.  `Ok([])` when nothing matches. */
  function Find(c: Config, nodes: seq<Value>, parent: Value): Result<seq<Value>>
    requires Below(nodes, parent)
    decreases parent, |nodes|
  {
    if nodes == [] then Ok([])
    else
      var node := nodes[0];
      match Test(c, node)
      case Throw(e) => Throw(e)
      case Ok(found) =>
        if found then Ok([node])
        else if IsNil(node) then Throw(NilRead)
        else if HasChildList(c, node) then
          ChildListBelow(c, node);
          var below := Find(c, Field(node, c.children).items, node);
          if below.Throw? then below
          else if below.value != [] then Ok([node] + below.value)
          else Find(c, nodes[1..], parent)
        else Find(c, nodes[1..], parent)
  }

  /** Every node of the subtrees at `nodes` in preorder, descending where the
      search does. */
  function Reach(c: Config, nodes: seq<Value>, parent: Value): seq<Value>
    requires Below(nodes, parent)
    decreases parent, |nodes|
  {
    if nodes == [] then []
    else
      var node := nodes[0];
      (if HasChildList(c, node) then
         ChildListBelow(c, node);
         [node] + Reach(c, Field(node, c.children).items, node)
       else [node])
      + Reach(c, nodes[1..], parent)
  }

  /** The transformer applied to every node of a path. */
  function Report(c: Config, path: Result<seq<Value>>): Result<seq<Value>>
    decreases if path.Ok? then |path.value| else 0
  {
    if path.Throw? then Throw(path.error)
    else if path.value == [] then Ok([])
    else
      match Transformed(c, path.value[0])
      case Throw(e) => Throw(e)
      case Ok(t) =>
        var rest := Report(c, Ok(path.value[1..]));
        if rest.Ok? then Ok([t] + rest.value) else rest
  }

  // ---------------------------------------------------------------------------
  // The function

  /** `findPath(tree, value, options)`. */
  method FindPath(tree: Value, value: Target, options: FindOptions) returns (r: Result<seq<Value>>)
    ensures !tree.Arr? ==> r == Ok([])
    ensures tree.Arr? ==>
              var c := Settings(options, value);
              r == Report(c, Find(c, tree.items, tree))
  {
    if !tree.Arr? {
      return Ok([]);
    }
    var c := Settings(options, value);
    r := Search(c, tree.items, tree);
  }

  /** `_findPath(subTree)`. */
  method Search(c: Config, subTree: seq<Value>, ghost parent: Value) returns (r: Result<seq<Value>>)
    requires Below(subTree, parent)
    ensures r == Report(c, Find(c, subTree, parent))
    decreases parent
  {
    var i := 0;
    while i < |subTree|
      invariant 0 <= i <= |subTree| && Below(subTree[i..], parent)
      invariant Find(c, subTree, parent) == Find(c, subTree[i..], parent)
    {
      var node := subTree[i];
      assert subTree[i..][0] == node && subTree[i..][1..] == subTree[i + 1..];
      var found := Test(c, node);
      if found.Throw? {
        return Throw(found.error);
      }
      if found.value {
        var t := Transformed(c, node);
        if t.Throw? {
          return Throw(t.error);
        }
        assert Report(c, Ok([node])) == Ok([t.value]) by {
          assert [node][1..] == [] && [t.value] + [] == [t.value];
        }
        return Ok([t.value]);
      }
      if IsNil(node) {
        return Throw(NilRead);
      }
      var childNodes := Field(node, c.children);
      if childNodes.Arr? && |childNodes.items| > 0 {
        ChildListBelow(c, node);
        var paths := Search(c, childNodes.items, node);
        if paths.Throw? {
          PathFails(c, node, Find(c, childNodes.items, node));
          return paths;
        }
        if |paths.value| > 0 {
          var t := Transformed(c, node);
          ReportCons(c, node, Find(c, childNodes.items, node).value);
          return Ok([t.value] + paths.value);
        }
        ReportEmpty(c, Find(c, childNodes.items, node));
      }
      i := i + 1;
    }
    return Ok([]);
  }

  lemma PathFails(c: Config, node: Value, below: Result<seq<Value>>)
    requires Report(c, below).Throw?
    ensures below.Throw? || below.value != []
  {
  }

  lemma ReportEmpty(c: Config, below: Result<seq<Value>>)
    requires Report(c, below) == Ok([])
    ensures below == Ok([])
  {
    ReportLength(c, below);
  }

  /** Reporting a path yields one value per node, or an error. */
  lemma {:induction false} ReportLength(c: Config, path: Result<seq<Value>>)
    ensures Report(c, path).Ok? ==> path.Ok? && |Report(c, path).value| == |path.value|
    decreases if path.Ok? then |path.value| else 0
  {
    if path.Ok? && path.value != [] {
      ReportLength(c, Ok(path.value[1..]));
    }
  }

  /** Reporting a longer path puts the parent's transformed value in front. */
  lemma ReportCons(c: Config, node: Value, path: seq<Value>)
    requires !IsNil(node) && Report(c, Ok(path)).Ok? && Report(c, Ok(path)).value != []
    ensures Transformed(c, node).Ok?
    ensures Report(c, Ok([node] + path)) == Ok([Transformed(c, node).value] + Report(c, Ok(path)).value)
  {
    assert ([node] + path)[0] == node && ([node] + path)[1..] == path;
  }

  // ---------------------------------------------------------------------------
  // Properties

  /** Nothing is found exactly when every node of the tree was tested, none
      matched and none was null or undefined. */
  lemma {:induction false} NotFound(c: Config, nodes: seq<Value>, parent: Value)
    requires Below(nodes, parent)
    ensures Find(c, nodes, parent) == Ok([]) <==> Clear(c, Reach(c, nodes, parent))
    decreases parent, |nodes|
  {
    if nodes != [] {
      var node := nodes[0];
      var rest := Reach(c, nodes[1..], parent);
      NotFound(c, nodes[1..], parent);
      assert Clear(c, [node]) <==> Test(c, node) == Ok(false) && !IsNil(node) by {
        assert [node][0] == node;
      }
      if HasChildList(c, node) {
        ChildListBelow(c, node);
        var sub := Reach(c, Field(node, c.children).items, node);
        NotFound(c, Field(node, c.children).items, node);
        assert Reach(c, nodes, parent) == ([node] + sub) + rest;
        Clear3(c, [node], sub, rest);
      } else {
        assert Reach(c, nodes, parent) == [node] + rest;
        Clear3(c, [node], [], rest);
        assert [node] + [] == [node];
      }
    }
  }

  /** Every node of `s` was tested without a match and none is null or
      undefined. */
  predicate Clear(c: Config, s: seq<Value>)
  {
    forall i :: 0 <= i < |s| ==> Test(c, s[i]) == Ok(false) && !IsNil(s[i])
  }

  lemma Clear3(c: Config, a: seq<Value>, b: seq<Value>, d: seq<Value>)
    ensures Clear(c, (a + b) + d) <==> Clear(c, a) && Clear(c, b) && Clear(c, d)
  {
    var s := (a + b) + d;
    if Clear(c, a) && Clear(c, b) && Clear(c, d) {
      forall i | 0 <= i < |s| ensures Test(c, s[i]) == Ok(false) && !IsNil(s[i]) {
        if i < |a| { assert s[i] == a[i]; }
        else if i < |a| + |b| { assert s[i] == b[i - |a|]; }
        else { assert s[i] == d[i - |a| - |b|]; }
      }
    }
    if Clear(c, s) {
      assert forall i :: 0 <= i < |a| ==> s[i] == a[i];
      assert forall i :: 0 <= i < |b| ==> s[|a| + i] == b[i];
      assert forall i :: 0 <= i < |d| ==> s[|a| + |b| + i] == d[i];
    }
  }

  /** A found path starts at a member of `nodes`, each next node is an element
      of the previous one's child list, and the last node matches. */
  lemma {:induction false} FoundChain(c: Config, nodes: seq<Value>, parent: Value)
    requires Below(nodes, parent)
    requires Find(c, nodes, parent).Ok? && Find(c, nodes, parent).value != []
    ensures var p := Find(c, nodes, parent).value;
            && p[0] in nodes
            && Test(c, p[|p| - 1]) == Ok(true)
            && forall i :: 0 <= i < |p| - 1 ==> HasChildList(c, p[i]) && p[i + 1] in Field(p[i], c.children).items
    decreases parent, |nodes|
  {
    var node := nodes[0];
    if Test(c, node) != Ok(true) {
      if HasChildList(c, node) {
        ChildListBelow(c, node);
        var cs := Field(node, c.children).items;
        var below := Find(c, cs, node);
        if below.Ok? && below.value != [] {
          FoundChain(c, cs, node);
          var p := [node] + below.value;
          assert forall i :: 1 <= i < |p| ==> p[i] == below.value[i - 1];
        } else {
          FoundChain(c, nodes[1..], parent);
          assert nodes[1..][0] in nodes;
        }
      } else {
        FoundChain(c, nodes[1..], parent);
        assert nodes[1..][0] in nodes;
      }
    }
  }

  /** Siblings are searched left to right: the first part of a level is
      searched completely before the rest, which is only searched when the
      first part has no match. */
  lemma {:induction false} LeftFirst(c: Config, a: seq<Value>, b: seq<Value>, parent: Value)
    requires Below(a, parent) && Below(b, parent)
    ensures Below(a + b, parent)
    ensures Find(c, a + b, parent) == if Find(c, a, parent) == Ok([]) then Find(c, b, parent) else Find(c, a, parent)
    decreases |a|
  {
    assert forall i :: 0 <= i < |a + b| ==> (a + b)[i] == if i < |a| then a[i] else b[i - |a|];
    if a != [] {
      assert (a + b)[0] == a[0] && (a + b)[1..] == a[1..] + b;
      LeftFirst(c, a[1..], b, parent);
    } else {
      assert a + b == b;
    }
  }

  /** A string options argument is the same as `{ key: options }`. */
  lemma KeyNameIsKey(name: string, value: Target)
    ensures Settings(KeyName(name), value) == Settings(Given(Some(name), None, Missing), value)
    ensures Settings(KeyName(name), value) == Config(name, "children", None, value)
  {
  }

  /** Searching `[{ id: 1, children: [{ id: 2 }] }, { id: 3 }]` for `2` under
      key `id` gives the ids along the path, `[1, 2]`. */
  lemma ExampleById(n1: Value, n2: Value, n3: Value)
    requires n2 == Rec(map["id" := Prim(Num(2))]) && n3 == Rec(map["id" := Prim(Num(3))])
    requires n1 == Rec(map["id" := Prim(Num(1)), "children" := Arr([n2])])
    ensures var c := Settings(Given(Some("id"), None, Missing), Match(Num(2)));
            Report(c, Find(c, [n1, n3], Arr([n1, n3]))) == Ok([Prim(Num(1)), Prim(Num(2))])
  {
    var c := Settings(Given(Some("id"), None, Missing), Match(Num(2)));
    assert Test(c, n1) == Ok(false) && Test(c, n2) == Ok(true);
    assert HasChildList(c, n1) && Field(n1, "children").items == [n2];
    assert Find(c, [n2], n1) == Ok([n2]);
    assert [n1] + [n2] == [n1, n2];
    assert Find(c, [n1, n3], Arr([n1, n3])) == Ok([n1, n2]);
    assert [n1, n2][1..] == [n2] && [n2][1..] == [];
    assert Transformed(c, n2) == Ok(Prim(Num(2))) && Transformed(c, n1) == Ok(Prim(Num(1)));
    assert [Prim(Num(2))] + [] == [Prim(Num(2))] && [Prim(Num(1))] + [Prim(Num(2))] == [Prim(Num(1)), Prim(Num(2))];
    assert Report(c, Ok([n2])) == Ok([Prim(Num(2))]);
  }
}
