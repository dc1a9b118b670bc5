/**
 * A JavaScript object graph: a finite heap of nodes addressed by references.
 * A value is a primitive or a reference; each node is one kind of heap object
 * (array, ordinary object with a prototype and data properties, Date, RegExp,
 * function, Map, Set, ArrayBuffer, typed array, DataView).  Allocation takes the
 * next unused reference, so everything allocated after a given moment lies at
 * or above that moment's `next`.
 */
module JsHeap {
  import opened JsValues

  type Ref = nat

  datatype Val = P(prim: Prim) | R(ref: Ref)

  /** An own data property with its attribute flags. */
  datatype Prop = Prop(key: Key, value: Val, enumerable: bool, writable: bool, configurable: bool)

  datatype TypedKind =
    | Int8 | Uint8 | Uint8Clamped | Int16 | Uint16 | Int32 | Uint32
    | Float32 | Float64 | BigInt64 | BigUint64

  /** The built-in prototype objects. */
  datatype Intrinsic =
    | ObjectPrototype | ArrayPrototype | DatePrototype | RegExpPrototype | FunctionPrototype
    | MapPrototype | SetPrototype | ArrayBufferPrototype | TypedArrayPrototype(kind: TypedKind)
    | DataViewPrototype

  /** What `Object.getPrototypeOf` returns: null, an object of the heap, or a built-in prototype. */
  datatype Proto = NullProto | ProtoRef(r: Ref) | Builtin(intrinsic: Intrinsic)

  datatype Node =
    | Arr(items: seq<Val>)
    | Obj(proto: Proto, props: seq<Prop>)
    | Date(time: int)
    | RegExp(source: string, flags: string)
    | Func
    | MapObj(entries: seq<(Val, Val)>)
    | SetObj(members: seq<Val>)
    | Buffer(bytes: seq<bv8>)
    | Typed(kind: TypedKind, elems: seq<int>)
    | View(buffer: Ref, offset: nat, length: nat)

  datatype Heap = Heap(nodes: map<Ref, Node>, next: Ref)

  // ---------------------------------------------------------------------------
  // Well-formedness

  predicate ValIn(v: Val, dom: set<Ref>) { v.R? ==> v.ref in dom }

  predicate ProtoIn(p: Proto, dom: set<Ref>) { p.ProtoRef? ==> p.r in dom }

  /** Keys of a property list are pairwise distinct. */
  predicate DistinctKeys(props: seq<Prop>)
  {
    forall i, j :: 0 <= i < j < |props| ==> props[i].key != props[j].key
  }

  predicate DistinctVals(vs: seq<Val>)
  {
    forall i, j :: 0 <= i < j < |vs| ==> vs[i] != vs[j]
  }

  function EntryKeys(entries: seq<(Val, Val)>): (ks: seq<Val>)
    ensures |ks| == |entries| && forall i :: 0 <= i < |ks| ==> ks[i] == entries[i].0
  {
    if entries == [] then [] else [entries[0].0] + EntryKeys(entries[1..])
  }

  /** Every reference a node holds points into `dom`; property keys, Map keys and
      Set members are distinct, as the host guarantees. */
  predicate NodeClosed(n: Node, dom: set<Ref>)
  {
    match n
    case Arr(items) => forall i :: 0 <= i < |items| ==> ValIn(items[i], dom)
    case Obj(proto, props) =>
      ProtoIn(proto, dom) && DistinctKeys(props) && forall i :: 0 <= i < |props| ==> ValIn(props[i].value, dom)
    case MapObj(entries) =>
      DistinctVals(EntryKeys(entries))
      && forall i :: 0 <= i < |entries| ==> ValIn(entries[i].0, dom) && ValIn(entries[i].1, dom)
    case SetObj(members) => DistinctVals(members) && forall i :: 0 <= i < |members| ==> ValIn(members[i], dom)
    case View(buffer, _, _) => buffer in dom
    case _ => true
  }

  /** A DataView's buffer is an ArrayBuffer. */
  predicate ViewsOverBuffers(nodes: map<Ref, Node>)
  {
    forall r :: r in nodes && nodes[r].View? ==> nodes[r].buffer in nodes && nodes[r].buffer != r && nodes[nodes[r].buffer].Buffer?
  }

  predicate ValidHeap(h: Heap)
  {
    && (forall r :: r in h.nodes ==> r < h.next)
    && (forall r :: r in h.nodes ==> NodeClosed(h.nodes[r], h.nodes.Keys))
    && ViewsOverBuffers(h.nodes)
  }

  predicate ValidVal(h: Heap, v: Val) { ValIn(v, h.nodes.Keys) }

  /** `h` keeps every node of `h0` as it was: nothing of the source graph is written. */
  predicate Extends(h0: Heap, h: Heap)
  {
    h0.next <= h.next && forall r :: r in h0.nodes ==> r in h.nodes && h.nodes[r] == h0.nodes[r]
  }

  lemma ExtendsTransitive(h0: Heap, h1: Heap, h2: Heap)
    requires Extends(h0, h1) && Extends(h1, h2)
    ensures Extends(h0, h2)
  {}

  // ---------------------------------------------------------------------------
  // Allocation and property access

  /** Allocates `n` at the next unused reference. */
  function Alloc(h: Heap, n: Node): (res: (Heap, Ref))
    ensures res.1 == h.next && res.0.next == h.next + 1
    ensures res.0.nodes == h.nodes[h.next := n]
  {
    (Heap(h.nodes[h.next := n], h.next + 1), h.next)
  }

  lemma AllocExtends(h: Heap, n: Node)
    requires ValidHeap(h)
    ensures Extends(h, Alloc(h, n).0) && h.next !in h.nodes
  {}

  /** Replaces the node at `r`. */
  function Store(h: Heap, r: Ref, n: Node): Heap
  {
    h.(nodes := h.nodes[r := n])
  }

  /** `h'` holds every node of `h` other than `t` unchanged. */
  predicate KeptExcept(h: Heap, h': Heap, t: Ref)
  {
    forall r :: r in h.nodes && r != t ==> r in h'.nodes && h'.nodes[r] == h.nodes[r]
  }

  /** Storing at `t` after allocations keeps every other node. */
  lemma StoreKeepsOthers(h: Heap, h1: Heap, t: Ref, n: Node)
    requires Extends(h, h1)
    ensures KeptExcept(h, Store(h1, t, n), t)
  {}

  /** The index keys 0 .. n-1. */
  function Indices(n: nat): (ks: seq<Key>)
    ensures |ks| == n && forall i :: 0 <= i < n ==> ks[i] == Idx(i)
  {
    if n == 0 then [] else Indices(n - 1) + [Idx(n - 1)]
  }

  /** The keys of the enumerable, string-keyed properties (in property order). */
  function EnumStringKeys(props: seq<Prop>): (ks: seq<Key>)
    ensures |ks| <= |props|
    ensures forall k :: k in ks <==> exists i :: 0 <= i < |props| && props[i].key == k && props[i].enumerable && !k.SymKey?
  {
    if props == [] then []
    else
      var rest := EnumStringKeys(props[1..]);
      forall k | exists i :: 1 <= i < |props| && props[i].key == k && props[i].enumerable && !k.SymKey?
        ensures exists i :: 0 <= i < |props[1..]| && props[1..][i].key == k && props[1..][i].enumerable && !k.SymKey?
      {
        var i :| 1 <= i < |props| && props[i].key == k && props[i].enumerable && !k.SymKey?;
        assert props[1..][i - 1] == props[i];
      }
      if props[0].enumerable && !props[0].key.SymKey? then [props[0].key] + rest else rest
  }

  /** `Object.keys(n)`, which is also what `for...in` filtered by `hasOwnProperty` visits. */
  function OwnEnumStringKeys(n: Node): seq<Key>
  {
    match n
    case Arr(items) => Indices(|items|)
    case Obj(_, props) => EnumStringKeys(props)
    case Typed(_, elems) => Indices(|elems|)
    case _ => []
  }

  predicate DistinctKeySeq(ks: seq<Key>)
  {
    forall i, j :: 0 <= i < j < |ks| ==> ks[i] != ks[j]
  }

  /** `Object.keys` lists each key once. */
  lemma OwnKeysDistinct(n: Node, dom: set<Ref>)
    requires NodeClosed(n, dom)
    ensures DistinctKeySeq(OwnEnumStringKeys(n))
  {
    if n.Obj? {
      EnumStringKeysDistinct(n.props);
    }
  }

  lemma {:induction false} EnumStringKeysDistinct(props: seq<Prop>)
    requires DistinctKeys(props)
    ensures DistinctKeySeq(EnumStringKeys(props))
  {
    if props != [] {
      var tail := props[1..];
      assert DistinctKeys(tail) by {
        forall i, j | 0 <= i < j < |tail| ensures tail[i].key != tail[j].key {
          assert tail[i] == props[i + 1] && tail[j] == props[j + 1];
        }
      }
      EnumStringKeysDistinct(tail);
    }
  }

  /** The position of key `k` in a property list, if present. */
  function FindProp(props: seq<Prop>, k: Key): (i: Option<nat>)
    ensures i.Some? ==> i.value < |props| && props[i.value].key == k
    ensures i.None? ==> forall j :: 0 <= j < |props| ==> props[j].key != k
  {
    if props == [] then None
    else if props[0].key == k then Some(0)
    else match FindProp(props[1..], k)
      case None => None
      case Some(j) => Some(j + 1)
  }

  /** In a list with distinct keys, the property at position `i` is the one found for its key. */
  lemma FindDistinct(props: seq<Prop>, i: nat)
    requires DistinctKeys(props) && i < |props|
    ensures FindProp(props, props[i].key) == Some(i)
  {
    var f := FindProp(props, props[i].key);
  }

  /** A typed array element, as the number or BigInt value the host reads. */
  function TypedElement(kind: TypedKind, e: int): Prim
  {
    if kind == BigInt64 || kind == BigUint64 then BigInt(e) else Num(e)
  }

  /** `n[k]` for an own key `k` of `n` (other keys are never read by the library). */
  function Get(n: Node, k: Key): Val
  {
    match n
    case Arr(items) => if k.Idx? && k.i < |items| then items[k.i] else P(Undefined)
    case Obj(_, props) =>
      (match FindProp(props, k)
       case Some(i) => props[i].value
       case None => P(Undefined))
    case Typed(kind, elems) => if k.Idx? && k.i < |elems| then P(TypedElement(kind, elems[k.i])) else P(Undefined)
    case _ => P(Undefined)
  }

  /** A value read from a node of a well-formed heap is a value of that heap. */
  lemma GetClosed(h0: Heap, x: Ref, k: Key)
    requires ValidHeap(h0) && x in h0.nodes
    ensures ValidVal(h0, Get(h0.nodes[x], k))
  {
    var n := h0.nodes[x];
    if n.Obj? {
      match FindProp(n.props, k)
      case Some(i) =>
      case None =>
    }
  }

  /** `Object.getPrototypeOf(n)`. */
  function PrototypeOf(n: Node): Proto
  {
    match n
    case Arr(_) => Builtin(ArrayPrototype)
    case Obj(proto, _) => proto
    case Date(_) => Builtin(DatePrototype)
    case RegExp(_, _) => Builtin(RegExpPrototype)
    case Func => Builtin(FunctionPrototype)
    case MapObj(_) => Builtin(MapPrototype)
    case SetObj(_) => Builtin(SetPrototype)
    case Buffer(_) => Builtin(ArrayBufferPrototype)
    case Typed(kind, _) => Builtin(TypedArrayPrototype(kind))
    case View(_, _, _) => Builtin(DataViewPrototype)
  }

  /** `target[k] = v` on an array or on an ordinary object with no setter in its
      prototype chain and no read-only property named `k`; an index past the end
      of an array grows it (the gap reads as undefined). */
  function SetKey(n: Node, k: Key, v: Val): (r: Node)
    requires n.Arr? || n.Obj?
    ensures r.Arr? == n.Arr? && r.Obj? == n.Obj?
  {
    match n
    case Arr(items) =>
      if !k.Idx? then n
      else if k.i < |items| then Arr(items[k.i := v])
      else Arr(items + seq(k.i - |items|, _ => P(Undefined)) + [v])
    case Obj(proto, props) =>
      match FindProp(props, k)
      case Some(i) => Obj(proto, props[i := props[i].(value := v)])
      case None => Obj(proto, props + [Prop(k, v, true, true, true)])
  }

  /** Writing the next index of an array, or a new key of an object, appends. */
  lemma SetKeyAppends(n: Node, k: Key, v: Val)
    requires (n.Arr? && k == Idx(|n.items|)) || (n.Obj? && forall j :: 0 <= j < |n.props| ==> n.props[j].key != k)
    ensures n.Arr? ==> SetKey(n, k, v) == Arr(n.items + [v])
    ensures n.Obj? ==> SetKey(n, k, v) == Obj(n.proto, n.props + [Prop(k, v, true, true, true)])
  {
    if n.Arr? {
      assert seq(0, _ => P(Undefined)) == [];
      assert n.items + seq(0, _ => P(Undefined)) == n.items;
    }
  }

  /** The first position of `x` in `vs`, if any. */
  function IndexOf(vs: seq<Val>, x: Val): (i: Option<nat>)
    ensures i.Some? ==> i.value < |vs| && vs[i.value] == x
    ensures i.None? <==> x !in vs
  {
    if vs == [] then None
    else if vs[0] == x then Some(0)
    else match IndexOf(vs[1..], x)
      case None => None
      case Some(j) => Some(j + 1)
  }

  /** `map.set(k, v)`: an entry with key `k` gets the new value in place, otherwise
      the entry is appended.  Keys compare by SameValueZero, which on the values of
      this model (no negative zero) is plain equality, NaN included. */
  function MapSet(entries: seq<(Val, Val)>, k: Val, v: Val): (r: seq<(Val, Val)>)
    ensures k !in EntryKeys(entries) ==> r == entries + [(k, v)]
    ensures k in EntryKeys(entries) ==> |r| == |entries| && EntryKeys(r) == EntryKeys(entries)
  {
    match IndexOf(EntryKeys(entries), k)
    case None => entries + [(k, v)]
    case Some(i) =>
      var r := entries[i := (entries[i].0, v)];
      assert EntryKeys(r) == EntryKeys(entries);
      r
  }

  /** `set.add(v)`: a member already present is not added again. */
  function SetAdd(members: seq<Val>, v: Val): (r: seq<Val>)
    ensures v !in members ==> r == members + [v]
    ensures v in members ==> r == members
  {
    if v in members then members else members + [v]
  }

  /** `value === null || typeof value !== 'object'` is false: `v` is a reference to a non-callable object. */
  predicate IsObject(h: Heap, v: Val)
  {
    v.R? && v.ref in h.nodes && !h.nodes[v.ref].Func?
  }
}
