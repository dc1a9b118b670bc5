/**
 * `clone`: the recursive deep clone.  Primitives and functions come back as
 * they are, Date and RegExp are rebuilt before the identity map is consulted,
 * and any other object is answered from the map or else registered with an
 * empty clone (an array, or an object with the source's prototype) before its
 * own enumerable string keys are cloned into it one by one.
 */
module Clone {
  import opened JsValues
  import opened JsHeap
  import opened CloneSpec
  import opened CloneSteps

  /** `cloneObj[key] = v` for the `j`-th key of `Object.keys(n)` fills one more slot. */
  lemma PutKey(h0: Heap, m: map<Ref, Ref>, cp: map<Ref, Copy>, t: Ref, x: Ref, tn: Node, j: nat, v: Val)
    requires ValidHeap(h0) == true && x in h0.nodes
    requires TargetOk(Basic, h0.nodes, m, cp, t, h0.nodes[x], tn, j) == true
    requires j < |OwnEnumStringKeys(h0.nodes[x])|
    requires var key := OwnEnumStringKeys(h0.nodes[x])[j];
      ValCorr(Basic, h0.nodes, m, cp, Child(t, At(key)), Get(h0.nodes[x], key), v)
    ensures tn.Arr? || tn.Obj?
    ensures TargetOk(Basic, h0.nodes, m, cp, t, h0.nodes[x], SetKey(tn, OwnEnumStringKeys(h0.nodes[x])[j], v), j + 1)
  {
    OwnKeysDistinct(h0.nodes[x], h0.nodes.Keys);
    BasicWrite(h0.nodes, m, cp, m, cp, t, h0.nodes[x], tn, j, v);
  }

  /** `clone(obj, hash)`, writing at origin `o`: the result corresponds to `obj`,
      every node it registered is completely cloned, and nothing that existed
      before the call is changed. */
  method Clone(h0: Heap, h: Heap, hash: map<Ref, Ref>, ghost cp: map<Ref, Copy>, obj: Val, ghost o: Origin)
    returns (h': Heap, hash': map<Ref, Ref>, ghost cp': map<Ref, Copy>, r: Val)
    requires ValidHeap(h0) == true && ValidVal(h0, obj) && CloneInv(Basic, h0, h, hash, cp) == true
    ensures Cloned(Basic, h0, h, hash, cp, h', hash', cp', o, obj, r) == true
    decreases Unregistered(h0, hash)
  {
    if obj.P? || h.nodes[obj.ref].Func? {
      PassThrough(Basic, h0, h, hash, cp, o, obj);
      return h, hash, cp, obj;
    }
    var x := obj.ref;
    var n := h.nodes[x];
    if n.Date? || n.RegExp? {
      CopiedOnce(Basic, h0, h, hash, cp, o, x);
      var a := Alloc(h, n);
      return a.0, hash, cp[a.1 := Copy(x, o)], R(a.1);
    }
    if x in hash {
      Hit(Basic, h0, h, hash, cp, o, x);
      return h, hash, cp, R(hash[x]);
    }

    var e := BasicEmpty(n);
    BasicEmptyOk(h0.nodes, hash[x := h.next], cp, h.next, n);
    BeginFill(Basic, h0, h, hash, cp, x, e);
    var a := Alloc(h, e);
    var cloneObj := a.1;
    ghost var ha, hash1 := a.0, hash[x := cloneObj];
    h', hash', cp' := a.0, hash[x := cloneObj], cp;

    var keys := OwnEnumStringKeys(n);
    var i := 0;
    while i < |keys|
      invariant 0 <= i <= |keys|
      invariant Filling(Basic, h0, ha, h', hash1, hash', cp, cp', x, cloneObj, i) == true
    {
      var key := keys[i];
      var child := Get(n, key);
      GetClosed(h0, x, key);
      FillingShrinks(Basic, h0, ha, h', hash, hash1, hash', cp, cp', x, cloneObj, i);
      var h2, hash2, cp2, v := Clone(h0, h', hash', cp', child, Child(cloneObj, At(key)));
      ChildFill(Basic, h0, ha, h', hash1, hash', cp, cp', x, cloneObj, i, h2, hash2, cp2, Child(cloneObj, At(key)), child, v);
      PutKey(h0, hash2, cp2, cloneObj, x, h2.nodes[cloneObj], i, v);
      var t := SetKey(h2.nodes[cloneObj], key, v);
      StoreFill(Basic, h0, ha, h2, hash1, hash2, cp, cp2, x, cloneObj, i, i + 1, t);
      h', hash', cp' := Store(h2, cloneObj, t), hash2, cp2;
      i := i + 1;
    }
    EndFill(Basic, h0, h, hash, cp, x, e, h', hash', cp', o);
    r := R(cloneObj);
  }

  /** `clone(obj)` with a fresh `hash`: `r` in heap `h` is a clone of `obj` out of `h0`. */
  method CloneValue(h0: Heap, obj: Val) returns (h: Heap, r: Val, ghost m: map<Ref, Ref>, ghost cp: map<Ref, Copy>)
    requires ValidHeap(h0) && ValidVal(h0, obj)
    ensures IsClone(Basic, h0, h, m, cp, obj, r)
  {
    FreshStart(Basic, h0);
    var hash;
    h, hash, cp, r := Clone(h0, h0, map[], map[], obj, Root);
    ClonedIsClone(Basic, h0, h, hash, cp, obj, r);
    m := hash;
  }
}
