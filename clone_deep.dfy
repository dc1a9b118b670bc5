/**
 * `deepClone`: the recursive clone that also rebuilds Map, Set, ArrayBuffer,
 * typed arrays and DataView, and copies every own property of a plain object
 * (symbol-keyed and non-enumerable ones included) with its descriptor flags.
 * Arrays, Maps, Sets and plain objects are registered in `hash` before their
 * contents are cloned; Date, RegExp, ArrayBuffer, typed arrays and DataView are
 * rebuilt each time they are met.
 */
module CloneDeep {
  import opened JsValues
  import opened JsHeap
  import opened CloneSpec
  import opened CloneSteps

  /** `ArrayBuffer.isView(n)`: typed arrays and DataViews. */
  predicate IsView(n: Node)
  {
    n.Typed? || n.View?
  }

  /** `isTypedArray(n)`: a view that is not a DataView. */
  predicate IsTypedArray(n: Node)
  {
    IsView(n) && !n.View?
  }

  lemma IsTypedArrayExactly(n: Node)
    ensures IsTypedArray(n) <==> n.Typed?
  {}

  // ---------------------------------------------------------------------------
  // The values a node holds belong to the source heap

  lemma ItemClosed(h0: Heap, x: Ref, i: nat)
    requires ValidHeap(h0) == true && x in h0.nodes && h0.nodes[x].Arr? && i < |h0.nodes[x].items|
    ensures ValidVal(h0, h0.nodes[x].items[i])
  {
    assert NodeClosed(h0.nodes[x], h0.nodes.Keys);
  }

  lemma EntryClosed(h0: Heap, x: Ref, i: nat)
    requires ValidHeap(h0) == true && x in h0.nodes && h0.nodes[x].MapObj? && i < |h0.nodes[x].entries|
    ensures ValidVal(h0, h0.nodes[x].entries[i].0) && ValidVal(h0, h0.nodes[x].entries[i].1)
  {
    assert NodeClosed(h0.nodes[x], h0.nodes.Keys);
  }

  lemma MemberClosed(h0: Heap, x: Ref, i: nat)
    requires ValidHeap(h0) == true && x in h0.nodes && h0.nodes[x].SetObj? && i < |h0.nodes[x].members|
    ensures ValidVal(h0, h0.nodes[x].members[i])
  {
    assert NodeClosed(h0.nodes[x], h0.nodes.Keys);
  }

  lemma PropClosed(h0: Heap, x: Ref, i: nat)
    requires ValidHeap(h0) == true && x in h0.nodes && h0.nodes[x].Obj? && i < |h0.nodes[x].props|
    ensures ValidVal(h0, h0.nodes[x].props[i].value)
  {
    assert NodeClosed(h0.nodes[x], h0.nodes.Keys);
  }

  // ---------------------------------------------------------------------------
  // One slot of each kind of clone target

  /** The empty `[]`, `new Map()`, `new Set()` or `Object.create(proto)` has no slot filled. */
  lemma EmptyOk(src: map<Ref, Node>, m: map<Ref, Ref>, cp: map<Ref, Copy>, t: Ref, n: Node, e: Node)
    requires (n.Arr? && e == Arr([])) || (n.MapObj? && e == MapObj([])) || (n.SetObj? && e == SetObj([]))
          || (n.Obj? && e == Obj(n.proto, []))
    ensures TargetOk(Full, src, m, cp, t, n, e, 0)
  {}

  /** `result[i] = v` appends element `i`. */
  lemma PutItem(src: map<Ref, Node>, m: map<Ref, Ref>, cp: map<Ref, Copy>, t: Ref, n: Node, tn: Node, i: nat, v: Val)
    requires n.Arr? && i < |n.items| && TargetOk(Full, src, m, cp, t, n, tn, i) == true
    requires ValCorr(Full, src, m, cp, Child(t, At(Idx(i))), n.items[i], v) == true
    ensures tn.Arr? && TargetOk(Full, src, m, cp, t, n, SetKey(tn, Idx(i), v), i + 1)
  {
    SetKeyAppends(tn, Idx(i), v);
  }

  /** `result.set(k, v)` for the `i`-th entry appends: the clone of the `i`-th
      key differs from the clones of all earlier keys, since the source keys are
      distinct and distinct values have distinct clones. */
  lemma PutEntry(h0: Heap, h: Heap, m: map<Ref, Ref>, cp: map<Ref, Copy>, t: Ref, x: Ref, tn: Node, i: nat, k: Val, v: Val)
    requires ValidHeap(h0) == true && CloneInv(Full, h0, h, m, cp) == true
    requires x in h0.nodes && h0.nodes[x].MapObj? && i < |h0.nodes[x].entries|
    requires TargetOk(Full, h0.nodes, m, cp, t, h0.nodes[x], tn, i) == true
    requires ValCorr(Full, h0.nodes, m, cp, Child(t, EntryKey(i)), h0.nodes[x].entries[i].0, k) == true
    requires ValCorr(Full, h0.nodes, m, cp, Child(t, EntryValue(i)), h0.nodes[x].entries[i].1, v) == true
    ensures tn.MapObj? && MapSet(tn.entries, k, v) == tn.entries + [(k, v)]
    ensures TargetOk(Full, h0.nodes, m, cp, t, h0.nodes[x], MapObj(MapSet(tn.entries, k, v)), i + 1)
  {
    var es := h0.nodes[x].entries;
    assert NodeClosed(h0.nodes[x], h0.nodes.Keys);
    forall j | 0 <= j < i ensures es[j].0 != es[i].0 {
      assert EntryKeys(es)[j] == es[j].0 && EntryKeys(es)[i] == es[i].0;
    }
    KeyIsNew(h0, h, m, cp, t, es, tn, i, k);
    assert k !in EntryKeys(tn.entries);
    AppendEntry(h0.nodes, m, cp, t, h0.nodes[x].entries, tn, i, k, v);
  }

  /** The clone of the `i`-th key is none of the clones of the keys before it. */
  lemma KeyIsNew(h0: Heap, h: Heap, m: map<Ref, Ref>, cp: map<Ref, Copy>, t: Ref, es: seq<(Val, Val)>, tn: Node, i: nat, k: Val)
    requires ValidHeap(h0) == true && CloneInv(Full, h0, h, m, cp) == true
    requires i < |es| && forall j :: 0 <= j < i ==> es[j].0 != es[i].0
    requires FullTargetOk(h0.nodes, m, cp, t, MapObj(es), tn, i) == true
    requires ValCorr(Full, h0.nodes, m, cp, Child(t, EntryKey(i)), es[i].0, k) == true
    ensures tn.MapObj? && |tn.entries| == i && forall j :: 0 <= j < i ==> tn.entries[j].0 != k
  {
    forall j | 0 <= j < i ensures tn.entries[j].0 != k {
      ValCorrInjective(Full, h0, h, m, cp, Child(t, EntryKey(j)), Child(t, EntryKey(i)), es[j].0, es[i].0, tn.entries[j].0, k);
    }
  }

  lemma AppendEntry(src: map<Ref, Node>, m: map<Ref, Ref>, cp: map<Ref, Copy>, t: Ref, es: seq<(Val, Val)>, tn: Node, i: nat, k: Val, v: Val)
    requires i < |es| && FullTargetOk(src, m, cp, t, MapObj(es), tn, i) == true
    requires ValCorr(Full, src, m, cp, Child(t, EntryKey(i)), es[i].0, k) == true
    requires ValCorr(Full, src, m, cp, Child(t, EntryValue(i)), es[i].1, v) == true
    ensures FullTargetOk(src, m, cp, t, MapObj(es), MapObj(tn.entries + [(k, v)]), i + 1)
  {}

  /** `result.add(v)` for the `i`-th member appends, for the same reason. */
  lemma PutMember(h0: Heap, h: Heap, m: map<Ref, Ref>, cp: map<Ref, Copy>, t: Ref, x: Ref, tn: Node, i: nat, v: Val)
    requires ValidHeap(h0) == true && CloneInv(Full, h0, h, m, cp) == true
    requires x in h0.nodes && h0.nodes[x].SetObj? && i < |h0.nodes[x].members|
    requires TargetOk(Full, h0.nodes, m, cp, t, h0.nodes[x], tn, i) == true
    requires ValCorr(Full, h0.nodes, m, cp, Child(t, Member(i)), h0.nodes[x].members[i], v) == true
    ensures tn.SetObj? && SetAdd(tn.members, v) == tn.members + [v]
    ensures TargetOk(Full, h0.nodes, m, cp, t, h0.nodes[x], SetObj(SetAdd(tn.members, v)), i + 1)
  {
    var ms := h0.nodes[x].members;
    assert NodeClosed(h0.nodes[x], h0.nodes.Keys);
    forall j | 0 <= j < i ensures tn.members[j] != v {
      ValCorrInjective(Full, h0, h, m, cp, Child(t, Member(j)), Child(t, Member(i)), ms[j], ms[i], tn.members[j], v);
    }
  }

  /** `descriptor.value = clone; acc[prop] = descriptor` for the `i`-th own property. */
  lemma PutDescriptor(src: map<Ref, Node>, m: map<Ref, Ref>, cp: map<Ref, Copy>, t: Ref, props: seq<Prop>,
                      acc: seq<Prop>, i: nat, v: Val)
    requires PropsCorr(src, m, cp, t, props, acc, i) == true && i < |props|
    requires ValCorr(Full, src, m, cp, Child(t, At(props[i].key)), props[i].value, v) == true
    ensures PropsCorr(src, m, cp, t, props, acc + [props[i].(value := v)], i + 1)
  {
    var acc' := acc + [props[i].(value := v)];
    forall j | 0 <= j < i + 1
      ensures acc'[j] == props[j].(value := acc'[j].value)
      ensures ValCorr(Full, src, m, cp, Child(t, At(props[j].key)), props[j].value, acc'[j].value)
    {
      if j < i {
        assert acc'[j] == acc[j];
      }
    }
  }

  /** `Object.defineProperties(result, acc)` on the still empty clone. */
  lemma DefineAll(src: map<Ref, Node>, m: map<Ref, Ref>, cp: map<Ref, Copy>, t: Ref, n: Node, tn: Node, acc: seq<Prop>)
    requires n.Obj? && TargetOk(Full, src, m, cp, t, n, tn, 0) == true
    requires PropsCorr(src, m, cp, t, n.props, acc, |n.props|) == true
    ensures tn.Obj? && tn.props == []
    ensures TargetOk(Full, src, m, cp, t, n, Obj(tn.proto, tn.props + acc), |n.props|)
  {
    assert tn.props + acc == acc;
  }

  // ---------------------------------------------------------------------------
  // The clone

  /** `deepClone(target, hash)`, writing at origin `o`: the result corresponds to
      `target`, every node it registered is completely cloned, and nothing that
      existed before the call is changed. */
  method DeepClone(h0: Heap, h: Heap, hash: map<Ref, Ref>, ghost cp: map<Ref, Copy>, target: Val, ghost o: Origin)
    returns (h': Heap, hash': map<Ref, Ref>, ghost cp': map<Ref, Copy>, r: Val)
    requires ValidHeap(h0) == true && ValidVal(h0, target) && CloneInv(Full, h0, h, hash, cp) == true
    ensures Cloned(Full, h0, h, hash, cp, h', hash', cp', o, target, r) == true
    decreases Unregistered(h0, hash), 0
  {
    if target.P? || h.nodes[target.ref].Func? {
      PassThrough(Full, h0, h, hash, cp, o, target);
      return h, hash, cp, target;
    }
    var x := target.ref;
    if x in hash {
      Hit(Full, h0, h, hash, cp, o, x);
      return h, hash, cp, R(hash[x]);
    }
    var n := h.nodes[x];
    if n.Arr? || n.MapObj? || n.SetObj? || n.Obj? {
      var e := if n.Arr? then Arr([]) else if n.MapObj? then MapObj([]) else if n.SetObj? then SetObj([]) else Obj(n.proto, []);
      EmptyOk(h0.nodes, hash[x := h.next], cp, h.next, n, e);
      BeginFill(Full, h0, h, hash, cp, x, e);
      var a := Alloc(h, e);
      ghost var ha := a.0;
      var hash1 := hash[x := a.1];
      FillingShrinks(Full, h0, ha, ha, hash, hash1, hash1, cp, cp, x, a.1, 0);
      if n.Arr? {
        h', hash', cp' := FillArray(h0, a.0, hash1, cp, x, a.1);
      } else if n.MapObj? {
        h', hash', cp' := FillMap(h0, a.0, hash1, cp, x, a.1);
      } else if n.SetObj? {
        h', hash', cp' := FillSet(h0, a.0, hash1, cp, x, a.1);
      } else {
        h', hash', cp' := FillObject(h0, a.0, hash1, cp, x, a.1);
      }
      EndFill(Full, h0, h, hash, cp, x, e, h', hash', cp', o);
      return h', hash', cp', R(a.1);
    }
    if n.View? {
      ViewCopied(h0, h, hash, cp, o, x);
      var b := Alloc(h, Buffer(h.nodes[n.buffer].bytes));
      var w := Alloc(b.0, View(b.1, n.offset, n.length));
      return w.0, hash, cp[b.1 := Copy(n.buffer, BufferOf(w.1))][w.1 := Copy(x, o)], R(w.1);
    }
    var copy :=
      match n
      case Date(time) => Date(time)
      case RegExp(source, flags) => RegExp(source, flags)
      case Buffer(bytes) => Buffer(bytes)
      case Typed(kind, elems) => Typed(kind, elems);
    CopiedOnce(Full, h0, h, hash, cp, o, x);
    var a := Alloc(h, copy);
    return a.0, hash, cp[a.1 := Copy(x, o)], R(a.1);
  }

  /** `result[i] = deepClone(target[i], hash)` for every index of the array `x`. */
  method FillArray(h0: Heap, ha: Heap, hash1: map<Ref, Ref>, ghost cp: map<Ref, Copy>, x: Ref, t: Ref)
    returns (h': Heap, hash': map<Ref, Ref>, ghost cp': map<Ref, Copy>)
    requires ValidHeap(h0) == true && x in h0.nodes && h0.nodes[x].Arr?
    requires Filling(Full, h0, ha, ha, hash1, hash1, cp, cp, x, t, 0) == true
    ensures Filling(Full, h0, ha, h', hash1, hash', cp, cp', x, t, |h0.nodes[x].items|) == true
    decreases Unregistered(h0, hash1), 1
  {
    var items := ha.nodes[x].items;
    h', hash', cp' := ha, hash1, cp;
    var i := 0;
    while i < |items|
      invariant items == h0.nodes[x].items && 0 <= i <= |items|
      invariant Filling(Full, h0, ha, h', hash1, hash', cp, cp', x, t, i) == true
    {
      ItemClosed(h0, x, i);
      FillingKeeps(Full, h0, ha, h', hash1, hash', cp, cp', x, t, i);
      var h2, hash2, cp2, v := DeepClone(h0, h', hash', cp', items[i], Child(t, At(Idx(i))));
      ChildFill(Full, h0, ha, h', hash1, hash', cp, cp', x, t, i, h2, hash2, cp2, Child(t, At(Idx(i))), items[i], v);
      PutItem(h0.nodes, hash2, cp2, t, h0.nodes[x], h2.nodes[t], i, v);
      var e := SetKey(h2.nodes[t], Idx(i), v);
      StoreFill(Full, h0, ha, h2, hash1, hash2, cp, cp2, x, t, i, i + 1, e);
      h', hash', cp' := Store(h2, t, e), hash2, cp2;
      i := i + 1;
    }
  }

  /** `target.forEach((value, key) => result.set(deepClone(key, hash), deepClone(value, hash)))`. */
  method FillMap(h0: Heap, ha: Heap, hash1: map<Ref, Ref>, ghost cp: map<Ref, Copy>, x: Ref, t: Ref)
    returns (h': Heap, hash': map<Ref, Ref>, ghost cp': map<Ref, Copy>)
    requires ValidHeap(h0) == true && x in h0.nodes && h0.nodes[x].MapObj?
    requires Filling(Full, h0, ha, ha, hash1, hash1, cp, cp, x, t, 0) == true
    ensures Filling(Full, h0, ha, h', hash1, hash', cp, cp', x, t, |h0.nodes[x].entries|) == true
    decreases Unregistered(h0, hash1), 2
  {
    h', hash', cp' := ha, hash1, cp;
    var i := 0;
    while i < |ha.nodes[x].entries|
      invariant ha.nodes[x] == h0.nodes[x] && 0 <= i <= |h0.nodes[x].entries|
      invariant Filling(Full, h0, ha, h', hash1, hash', cp, cp', x, t, i) == true
    {
      FillingKeeps(Full, h0, ha, h', hash1, hash', cp, cp', x, t, i);
      h', hash', cp' := CloneEntry(h0, ha, hash1, cp, x, t, i, h', hash', cp');
      i := i + 1;
    }
  }

  /** One step of the `forEach` above: the `i`-th key is cloned first, then its
      value, and the pair is added to the clone. */
  method CloneEntry(h0: Heap, ha: Heap, hash1: map<Ref, Ref>, ghost cp: map<Ref, Copy>, x: Ref, t: Ref, i: nat,
                    h: Heap, hash: map<Ref, Ref>, ghost cpi: map<Ref, Copy>)
    returns (h': Heap, hash': map<Ref, Ref>, ghost cp': map<Ref, Copy>)
    requires ValidHeap(h0) == true && x in h0.nodes && h0.nodes[x].MapObj? && i < |h0.nodes[x].entries|
    requires Filling(Full, h0, ha, h, hash1, hash, cp, cpi, x, t, i) == true
    ensures Filling(Full, h0, ha, h', hash1, hash', cp, cp', x, t, i + 1) == true
    decreases Unregistered(h0, hash), 1
  {
    EntryClosed(h0, x, i);
    var (key, value) := h.nodes[x].entries[i];
    var h2, hash2, cp2, k := DeepClone(h0, h, hash, cpi, key, Child(t, EntryKey(i)));
    ChildFill(Full, h0, ha, h, hash1, hash, cp, cpi, x, t, i, h2, hash2, cp2, Child(t, EntryKey(i)), key, k);
    FillingKeeps(Full, h0, ha, h2, hash1, hash2, cp, cp2, x, t, i);
    var h3, hash3, cp3, v := DeepClone(h0, h2, hash2, cp2, value, Child(t, EntryValue(i)));
    EntryFill(h0, ha, h2, hash1, hash2, cp, cp2, x, t, i, h3, hash3, cp3, k, v);
    var e := MapObj(MapSet(h3.nodes[t].entries, k, v));
    h', hash', cp' := Store(h3, t, e), hash3, cp3;
  }

  /** Once the `i`-th key and value are cloned, `result.set(k, v)` fills one more entry. */
  lemma EntryFill(h0: Heap, ha: Heap, h2: Heap, hash1: map<Ref, Ref>, hash2: map<Ref, Ref>, cp: map<Ref, Copy>, cp2: map<Ref, Copy>,
                  x: Ref, t: Ref, i: nat, h3: Heap, hash3: map<Ref, Ref>, cp3: map<Ref, Copy>, k: Val, v: Val)
    requires ValidHeap(h0) == true && x in h0.nodes && h0.nodes[x].MapObj? && i < |h0.nodes[x].entries|
    requires Filling(Full, h0, ha, h2, hash1, hash2, cp, cp2, x, t, i) == true
    requires ValCorr(Full, h0.nodes, hash2, cp2, Child(t, EntryKey(i)), h0.nodes[x].entries[i].0, k) == true
    requires Cloned(Full, h0, h2, hash2, cp2, h3, hash3, cp3, Child(t, EntryValue(i)), h0.nodes[x].entries[i].1, v) == true
    ensures t in h3.nodes && h3.nodes[t].MapObj?
    ensures Filling(Full, h0, ha, Store(h3, t, MapObj(MapSet(h3.nodes[t].entries, k, v))), hash1, hash3, cp, cp3, x, t, i + 1) == true
  {
    ChildFill(Full, h0, ha, h2, hash1, hash2, cp, cp2, x, t, i, h3, hash3, cp3, Child(t, EntryValue(i)), h0.nodes[x].entries[i].1, v);
    ValCorrGrows(Full, h0.nodes, hash2, cp2, hash3, cp3, Child(t, EntryKey(i)), h0.nodes[x].entries[i].0, k);
    PutEntry(h0, h3, hash3, cp3, t, x, h3.nodes[t], i, k, v);
    StoreFill(Full, h0, ha, h3, hash1, hash3, cp, cp3, x, t, i, i + 1, MapObj(MapSet(h3.nodes[t].entries, k, v)));
  }

  /** `target.forEach(value => result.add(deepClone(value, hash)))`. */
  method FillSet(h0: Heap, ha: Heap, hash1: map<Ref, Ref>, ghost cp: map<Ref, Copy>, x: Ref, t: Ref)
    returns (h': Heap, hash': map<Ref, Ref>, ghost cp': map<Ref, Copy>)
    requires ValidHeap(h0) == true && x in h0.nodes && h0.nodes[x].SetObj?
    requires Filling(Full, h0, ha, ha, hash1, hash1, cp, cp, x, t, 0) == true
    ensures Filling(Full, h0, ha, h', hash1, hash', cp, cp', x, t, |h0.nodes[x].members|) == true
    decreases Unregistered(h0, hash1), 1
  {
    var members := ha.nodes[x].members;
    h', hash', cp' := ha, hash1, cp;
    var i := 0;
    while i < |members|
      invariant members == h0.nodes[x].members && 0 <= i <= |members|
      invariant Filling(Full, h0, ha, h', hash1, hash', cp, cp', x, t, i) == true
    {
      MemberClosed(h0, x, i);
      FillingKeeps(Full, h0, ha, h', hash1, hash', cp, cp', x, t, i);
      var h2, hash2, cp2, v := DeepClone(h0, h', hash', cp', members[i], Child(t, Member(i)));
      ChildFill(Full, h0, ha, h', hash1, hash', cp, cp', x, t, i, h2, hash2, cp2, Child(t, Member(i)), members[i], v);
      PutMember(h0, h2, hash2, cp2, t, x, h2.nodes[t], i, v);
      var e := SetObj(SetAdd(h2.nodes[t].members, v));
      StoreFill(Full, h0, ha, h2, hash1, hash2, cp, cp2, x, t, i, i + 1, e);
      h', hash', cp' := Store(h2, t, e), hash2, cp2;
      i := i + 1;
    }
  }

  /** `Reflect.ownKeys(target).reduce(...)`: each own property's descriptor with
      its value cloned, then `Object.defineProperties(result, descriptors)`. */
  method FillObject(h0: Heap, ha: Heap, hash1: map<Ref, Ref>, ghost cp: map<Ref, Copy>, x: Ref, t: Ref)
    returns (h': Heap, hash': map<Ref, Ref>, ghost cp': map<Ref, Copy>)
    requires ValidHeap(h0) == true && x in h0.nodes && h0.nodes[x].Obj?
    requires Filling(Full, h0, ha, ha, hash1, hash1, cp, cp, x, t, 0) == true
    ensures Filling(Full, h0, ha, h', hash1, hash', cp, cp', x, t, |h0.nodes[x].props|) == true
    decreases Unregistered(h0, hash1), 1
  {
    var props := ha.nodes[x].props;
    h', hash', cp' := ha, hash1, cp;
    var acc: seq<Prop> := [];
    var i := 0;
    while i < |props|
      invariant props == h0.nodes[x].props && 0 <= i <= |props|
      invariant Filling(Full, h0, ha, h', hash1, hash', cp, cp', x, t, 0) == true
      invariant PropsCorr(h0.nodes, hash', cp', t, props, acc, i) == true
    {
      PropClosed(h0, x, i);
      var descriptor := props[i];
      FillingKeeps(Full, h0, ha, h', hash1, hash', cp, cp', x, t, 0);
      var h2, hash2, cp2, v := DeepClone(h0, h', hash', cp', descriptor.value, Child(t, At(descriptor.key)));
      ChildFill(Full, h0, ha, h', hash1, hash', cp, cp', x, t, 0, h2, hash2, cp2, Child(t, At(descriptor.key)), descriptor.value, v);
      PropsCorrGrows(h0.nodes, hash', cp', hash2, cp2, t, props, acc, i);
      PutDescriptor(h0.nodes, hash2, cp2, t, props, acc, i, v);
      acc := acc + [descriptor.(value := v)];
      h', hash', cp' := h2, hash2, cp2;
      i := i + 1;
    }
    DefineAll(h0.nodes, hash', cp', t, h0.nodes[x], h'.nodes[t], acc);
    var e := Obj(h'.nodes[t].proto, h'.nodes[t].props + acc);
    StoreFill(Full, h0, ha, h', hash1, hash', cp, cp', x, t, 0, |props|, e);
    h' := Store(h', t, e);
  }

  /** `deepClone(target)` with a fresh `hash`: `r` in heap `h` is a full clone of `target` out of `h0`. */
  method DeepCloneValue(h0: Heap, target: Val) returns (h: Heap, r: Val, ghost m: map<Ref, Ref>, ghost cp: map<Ref, Copy>)
    requires ValidHeap(h0) && ValidVal(h0, target)
    ensures IsClone(Full, h0, h, m, cp, target, r)
  {
    FreshStart(Full, h0);
    var hash;
    h, hash, cp, r := DeepClone(h0, h0, map[], map[], target, Root);
    ClonedIsClone(Full, h0, h, hash, cp, target, r);
    m := hash;
  }
}
