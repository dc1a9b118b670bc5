/**
 * The steps shared by the two recursive clones, `clone` and `deepClone`.
 *
 * A recursive call receives the heap, the identity map (`hash`) and the ghost
 * copy map, and hands back larger ones.  It promises (`Cloned`) that nothing
 * that existed before the call was written, that its result corresponds to its
 * argument, and that every node it registered has a complete clone.  While the
 * call fills the clone `t` of a node `x` slot by slot, `Filling` holds.
 */
module CloneSteps {
  import opened JsValues
  import opened JsHeap
  import opened CloneSpec

  /** Every node registered since `m0` has a complete clone. */
  predicate NewDone(s: Strategy, h0: Heap, h: Heap, m0: map<Ref, Ref>, m: map<Ref, Ref>, cp: map<Ref, Copy>)
  {
    forall y :: y in m && y !in m0 ==> Done(s, h0.nodes, h.nodes, m, cp, y)
  }

  /** A call cloning `v` for origin `o`, from heap `h` and maps `m`, `cp` to
      `h'`, `m'`, `cp'`, with result `r`. */
  predicate Cloned(s: Strategy, h0: Heap, h: Heap, m: map<Ref, Ref>, cp: map<Ref, Copy>,
                   h': Heap, m': map<Ref, Ref>, cp': map<Ref, Copy>, o: Origin, v: Val, r: Val)
  {
    && CloneInv(s, h0, h', m', cp')
    && Extends(h, h') && Sub(m, m') && Sub(cp, cp')
    && ValCorr(s, h0.nodes, m', cp', o, v, r)
    && NewDone(s, h0, h', m, m', cp')
  }

  /** The clone `t` of `x` has `j` slots filled.  `ha` is the heap right after `t`
      was allocated and `m1` the map right after `x` was registered; since then
      only `t` was rewritten, and every node registered since is complete. */
  predicate Filling(s: Strategy, h0: Heap, ha: Heap, h: Heap, m1: map<Ref, Ref>, m: map<Ref, Ref>,
                    cp0: map<Ref, Copy>, cp: map<Ref, Copy>, x: Ref, t: Ref, j: nat)
  {
    && CloneInv(s, h0, h, m, cp)
    && ha.next <= h.next && KeptExcept(ha, h, t)
    && Sub(m1, m) && Sub(cp0, cp)
    && x in m1 && m1[x] == t && x in h0.nodes && t in h.nodes
    && TargetOk(s, h0.nodes, m, cp, t, h0.nodes[x], h.nodes[t], j)
    && NewDone(s, h0, h, m1, m, cp)
  }

  /** Before the first call nothing is registered or copied. */
  lemma FreshStart(s: Strategy, h0: Heap)
    requires ValidHeap(h0) == true
    ensures CloneInv(s, h0, h0, map[], map[]) == true
  {}

  /** A call from scratch that keeps its promise has cloned the whole graph reached from `v`. */
  lemma ClonedIsClone(s: Strategy, h0: Heap, h: Heap, m: map<Ref, Ref>, cp: map<Ref, Copy>, v: Val, r: Val)
    requires Cloned(s, h0, h0, map[], map[], h, m, cp, Root, v, r) == true
    ensures IsClone(s, h0, h, m, cp, v, r) == true
  {}

  /** A primitive or a function is returned as it is. */
  lemma PassThrough(s: Strategy, h0: Heap, h: Heap, m: map<Ref, Ref>, cp: map<Ref, Copy>, o: Origin, v: Val)
    requires CloneInv(s, h0, h, m, cp) == true && ValIn(v, h0.nodes.Keys)
    requires v.P? || h0.nodes[v.ref].Func?
    ensures Cloned(s, h0, h, m, cp, h, m, cp, o, v, v) == true
  {}

  /** A node found in the identity map is answered by its clone. */
  lemma Hit(s: Strategy, h0: Heap, h: Heap, m: map<Ref, Ref>, cp: map<Ref, Copy>, o: Origin, x: Ref)
    requires CloneInv(s, h0, h, m, cp) == true && x in m
    ensures Cloned(s, h0, h, m, cp, h, m, cp, o, R(x), R(m[x])) == true
  {}

  /** A node copied inline (not a DataView) gets a new equal node. */
  lemma CopiedOnce(s: Strategy, h0: Heap, h: Heap, m: map<Ref, Ref>, cp: map<Ref, Copy>, o: Origin, x: Ref)
    requires CloneInv(s, h0, h, m, cp) == true && x in h0.nodes && CopiedInline(s, h0.nodes[x]) && !h0.nodes[x].View?
    ensures Cloned(s, h0, h, m, cp, Alloc(h, h0.nodes[x]).0, m, cp[h.next := Copy(x, o)], o, R(x), R(h.next)) == true
  {
    InvCopy(s, h0, h, m, cp, x, o);
  }

  /** A DataView gets a copy of its buffer, then a new view over that copy. */
  lemma ViewCopied(h0: Heap, h: Heap, m: map<Ref, Ref>, cp: map<Ref, Copy>, o: Origin, x: Ref)
    requires ValidHeap(h0) == true && CloneInv(Full, h0, h, m, cp) == true && x in h0.nodes && h0.nodes[x].View?
    ensures var n := h0.nodes[x];
      var b := Alloc(h, h0.nodes[n.buffer]);
      var cp1 := cp[h.next := Copy(n.buffer, BufferOf(h.next + 1))];
      var w := Alloc(b.0, View(b.1, n.offset, n.length));
      Cloned(Full, h0, h, m, cp, w.0, m, cp1[h.next + 1 := Copy(x, o)], o, R(x), R(w.1))
  {
    var n := h0.nodes[x];
    InvCopy(Full, h0, h, m, cp, n.buffer, BufferOf(h.next + 1));
    var b := Alloc(h, h0.nodes[n.buffer]);
    var cp1 := cp[h.next := Copy(n.buffer, BufferOf(h.next + 1))];
    InvAddView(h0, b.0, m, cp1, x, o);
    var w := Alloc(b.0, View(b.1, n.offset, n.length));
    var cp2 := cp1[h.next + 1 := Copy(x, o)];
    ExtendsTransitive(h, b.0, w.0);
    SubTransitive(cp, cp1, cp2);
    NothingNew(Full, h0, w.0, m, cp2);
    assert ValCorr(Full, h0.nodes, m, cp2, o, R(x), R(w.1));
    MakeCloned(Full, h0, h, m, cp, w.0, m, cp2, o, R(x), R(w.1));
  }

  /** With the identity map unchanged nothing new needs completing. */
  lemma NothingNew(s: Strategy, h0: Heap, h: Heap, m: map<Ref, Ref>, cp: map<Ref, Copy>)
    ensures NewDone(s, h0, h, m, m, cp) && Sub(m, m)
  {}

  /** Registering `x` with the empty clone `e` starts filling it. */
  lemma BeginFill(s: Strategy, h0: Heap, h: Heap, m: map<Ref, Ref>, cp: map<Ref, Copy>, x: Ref, e: Node)
    requires CloneInv(s, h0, h, m, cp) == true && x in h0.nodes && Registered(s, h0.nodes[x]) && x !in m
    requires TargetOk(s, h0.nodes, m[x := h.next], cp, h.next, h0.nodes[x], e, 0) == true
    ensures var ha := Alloc(h, e).0;
      Filling(s, h0, ha, ha, m[x := h.next], m[x := h.next], cp, cp, x, h.next, 0) == true
  {
    InvRegister(s, h0, h, m, cp, x, e);
  }

  /** A recursive call made while filling leaves the clone being filled as it was. */
  lemma ChildFill(s: Strategy, h0: Heap, ha: Heap, h: Heap, m1: map<Ref, Ref>, m: map<Ref, Ref>,
                  cp0: map<Ref, Copy>, cp: map<Ref, Copy>, x: Ref, t: Ref, j: nat,
                  h2: Heap, m2: map<Ref, Ref>, cp2: map<Ref, Copy>, o: Origin, v: Val, r: Val)
    requires Filling(s, h0, ha, h, m1, m, cp0, cp, x, t, j) == true
    requires Cloned(s, h0, h, m, cp, h2, m2, cp2, o, v, r) == true
    ensures Filling(s, h0, ha, h2, m1, m2, cp0, cp2, x, t, j)
    ensures ValCorr(s, h0.nodes, m2, cp2, o, v, r)
  {
    forall y | y in m2 && y !in m1 ensures Done(s, h0.nodes, h2.nodes, m2, cp2, y) == true {
      if y in m {
        DoneKept(s, h0.nodes, h.nodes, h2.nodes, m, cp, m2, cp2, y);
      }
    }
    TargetOkGrows(s, h0.nodes, m, cp, m2, cp2, t, h0.nodes[x], h.nodes[t], j);
  }

  /** Rewriting the clone being filled with a node that has `j'` slots filled. */
  lemma StoreFill(s: Strategy, h0: Heap, ha: Heap, h: Heap, m1: map<Ref, Ref>, m: map<Ref, Ref>,
                  cp0: map<Ref, Copy>, cp: map<Ref, Copy>, x: Ref, t: Ref, j: nat, j': nat, e: Node)
    requires Filling(s, h0, ha, h, m1, m, cp0, cp, x, t, j) == true
    requires TargetOk(s, h0.nodes, m, cp, t, h0.nodes[x], e, j') == true
    ensures Filling(s, h0, ha, Store(h, t, e), m1, m, cp0, cp, x, t, j')
  {
    InvStore(s, h0, h, m, cp, x, e);
    var h' := Store(h, t, e);
    forall y | y in m && y !in m1 ensures Done(s, h0.nodes, h'.nodes, m, cp, y) == true {
      assert m[y] != t;
      DoneKept(s, h0.nodes, h.nodes, h'.nodes, m, cp, m, cp, y);
    }
  }

  /** Filling the last slot completes the call that registered `x`. */
  lemma EndFill(s: Strategy, h0: Heap, h: Heap, m: map<Ref, Ref>, cp: map<Ref, Copy>, x: Ref, e: Node,
                h': Heap, m': map<Ref, Ref>, cp': map<Ref, Copy>, o: Origin)
    requires CloneInv(s, h0, h, m, cp) == true && x in h0.nodes && x !in m
    requires Filling(s, h0, Alloc(h, e).0, h', m[x := h.next], m', cp, cp', x, h.next, Size(s, h0.nodes[x])) == true
    ensures Cloned(s, h0, h, m, cp, h', m', cp', o, R(x), R(h.next))
  {
    var ha := Alloc(h, e).0;
    var m1 := m[x := h.next];
    AllocKeeps(h, e);
    ExtendsPast(h, ha, h', h.next);
    assert Done(s, h0.nodes, h'.nodes, m', cp', x) == true;
    NewDoneEnd(s, h0, h', m, m1, m', cp', x);
    assert Sub(m, m1) == true;
    SubTransitive(m, m1, m');
    MakeCloned(s, h0, h, m, cp, h', m', cp', o, R(x), R(h.next));
  }

  /** Allocating past every node keeps them all. */
  lemma AllocKeeps(h: Heap, e: Node)
    requires forall r :: r in h.nodes ==> r < h.next
    ensures Extends(h, Alloc(h, e).0)
  {}

  lemma SubTransitive<K, V>(a: map<K, V>, b: map<K, V>, c: map<K, V>)
    requires Sub(a, b) == true && Sub(b, c) == true
    ensures Sub(a, c)
  {}

  /** The parts of `Cloned`, put together. */
  lemma MakeCloned(s: Strategy, h0: Heap, h: Heap, m: map<Ref, Ref>, cp: map<Ref, Copy>,
                   h': Heap, m': map<Ref, Ref>, cp': map<Ref, Copy>, o: Origin, v: Val, r: Val)
    requires CloneInv(s, h0, h', m', cp') == true
    requires Extends(h, h') == true && Sub(m, m') == true && Sub(cp, cp') == true
    requires ValCorr(s, h0.nodes, m', cp', o, v, r) == true
    requires NewDone(s, h0, h', m, m', cp') == true
    ensures Cloned(s, h0, h, m, cp, h', m', cp', o, v, r)
  {}

  /** Only the node allocated after `h` was rewritten. */
  lemma ExtendsPast(h: Heap, ha: Heap, h': Heap, t: Ref)
    requires forall r :: r in h.nodes ==> r < h.next
    requires t == h.next && Extends(h, ha) == true && ha.next <= h'.next
    requires KeptExcept(ha, h', t) == true
    ensures Extends(h, h')
  {
    forall r | r in h.nodes ensures r in h'.nodes && h'.nodes[r] == h.nodes[r] {
      assert r != t;
    }
  }

  lemma NewDoneEnd(s: Strategy, h0: Heap, h: Heap, m: map<Ref, Ref>, m1: map<Ref, Ref>, m': map<Ref, Ref>,
                   cp: map<Ref, Copy>, x: Ref)
    requires NewDone(s, h0, h, m1, m', cp) == true && Done(s, h0.nodes, h.nodes, m', cp, x) == true
    requires m1.Keys == m.Keys + {x}
    ensures NewDone(s, h0, h, m, m', cp)
  {}

  /** While `x` is being filled, the calls made for its slots see fewer
      unregistered nodes than the call that registered it. */
  lemma FillingShrinks(s: Strategy, h0: Heap, ha: Heap, h: Heap, m0: map<Ref, Ref>, m1: map<Ref, Ref>, m: map<Ref, Ref>,
                       cp0: map<Ref, Copy>, cp: map<Ref, Copy>, x: Ref, t: Ref, j: nat)
    requires Filling(s, h0, ha, h, m1, m, cp0, cp, x, t, j) == true
    requires x !in m0 && m1 == m0[x := t]
    ensures Unregistered(h0, m) < Unregistered(h0, m0)
  {
    assert x in Unregistered(h0, m0);
  }

  /** ... and no more than after registering it. */
  lemma FillingKeeps(s: Strategy, h0: Heap, ha: Heap, h: Heap, m1: map<Ref, Ref>, m: map<Ref, Ref>,
                     cp0: map<Ref, Copy>, cp: map<Ref, Copy>, x: Ref, t: Ref, j: nat)
    requires Filling(s, h0, ha, h, m1, m, cp0, cp, x, t, j) == true
    ensures Unregistered(h0, m) <= Unregistered(h0, m1)
  {}
}
