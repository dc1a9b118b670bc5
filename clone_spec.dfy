/**
 * What it means for a heap to hold a clone of a source graph.
 *
 * A clone run starts from a source heap `h0` and ends in a heap `h` that
 * extends it.  Two ghost maps record how the copy relates to the source:
 *  - `m` sends each source node that the algorithm registers in its identity
 *    map (WeakMap) to the one clone made for it;
 *  - `cp` sends each node copied inline (never registered: Date and RegExp,
 *    and for the full clone also ArrayBuffer, typed arrays and DataView) to the
 *    source it copies and the place (`Origin`) that asked for it, so that two
 *    references to one Date give two distinct copies.
 * Functions are not copied at all: `typeof f === 'function'` passes them through.
 */
module CloneSpec {
  import opened JsValues
  import opened JsHeap

  /** `Basic` is the behaviour of `clone` and `cloneLoop`; `Full` that of `deepClone`. */
  datatype Strategy = Basic | Full

  /** Where in a clone a value was written. */
  datatype Slot = At(key: Key) | EntryKey(i: nat) | EntryValue(i: nat) | Member(i: nat)

  /** Who asked for an inline copy: the caller of the whole clone, a slot of a
      clone node, or the DataView whose buffer it is. */
  datatype Origin = Root | Child(parent: Ref, slot: Slot) | BufferOf(view: Ref)

  datatype Copy = Copy(source: Ref, origin: Origin)

  /** Kinds rebuilt as a new instance each time they are met, and never registered. */
  predicate CopiedInline(s: Strategy, n: Node)
  {
    n.Date? || n.RegExp? || (s == Full && (n.Buffer? || n.Typed? || n.View?))
  }

  /** Kinds entered in the identity map before their contents are cloned. */
  predicate Registered(s: Strategy, n: Node)
  {
    !n.Func? && !CopiedInline(s, n)
  }

  /** `a` is contained in `b`: every entry of `a` is an entry of `b`. */
  predicate Sub<K, V(==)>(a: map<K, V>, b: map<K, V>)
  {
    forall k :: k in a ==> k in b && b[k] == a[k]
  }

  /** The clone `tv`, written at `o`, corresponds to the source value `sv`. */
  predicate ValCorr(s: Strategy, src: map<Ref, Node>, m: map<Ref, Ref>, cp: map<Ref, Copy>, o: Origin, sv: Val, tv: Val)
  {
    if sv.P? then tv == sv
    else
      sv.ref in src &&
      if src[sv.ref].Func? then tv == sv
      else if CopiedInline(s, src[sv.ref]) then tv.R? && tv.ref in cp && cp[tv.ref] == Copy(sv.ref, o)
      else sv.ref in m && tv == R(m[sv.ref])
  }

  /** The inline copy at `c` equals its source; a DataView copy keeps offset and
      length and sits over a copy of the source's buffer made for it alone. */
  predicate CopyOk(src: map<Ref, Node>, tgt: map<Ref, Node>, cp: map<Ref, Copy>, c: Ref)
  {
    c in cp && cp[c].source in src && c in tgt &&
    var n := src[cp[c].source];
    if n.View? then
      tgt[c].View? && tgt[c].offset == n.offset && tgt[c].length == n.length
      && tgt[c].buffer in cp && cp[tgt[c].buffer] == Copy(n.buffer, BufferOf(c))
    else tgt[c] == n
  }

  /** The clone target `tn` (at `t`) of `n` made by `clone`/`cloneLoop`, with its
      first `j` own enumerable string keys written: an array becomes an array,
      anything else an object with the source's prototype whose keys are those of
      `Object.keys(n)`, each a plain writable, enumerable, configurable property. */
  predicate BasicTargetOk(src: map<Ref, Node>, m: map<Ref, Ref>, cp: map<Ref, Copy>, t: Ref, n: Node, tn: Node, j: nat)
  {
    var keys := OwnEnumStringKeys(n);
    j <= |keys| &&
    if n.Arr? then
      tn.Arr? && |tn.items| == j
      && forall i :: 0 <= i < j ==> ValCorr(Basic, src, m, cp, Child(t, At(Idx(i))), n.items[i], tn.items[i])
    else
      tn.Obj? && tn.proto == PrototypeOf(n) && |tn.props| == j
      && forall i :: 0 <= i < j ==>
           tn.props[i].key == keys[i] && tn.props[i].enumerable && tn.props[i].writable && tn.props[i].configurable
           && ValCorr(Basic, src, m, cp, Child(t, At(keys[i])), Get(n, keys[i]), tn.props[i].value)
  }

  /** The first `j` descriptors of `props` copied with flags kept and cloned values. */
  predicate PropsCorr(src: map<Ref, Node>, m: map<Ref, Ref>, cp: map<Ref, Copy>, t: Ref, props: seq<Prop>, tprops: seq<Prop>, j: nat)
  {
    |tprops| == j <= |props|
    && forall i :: 0 <= i < j ==>
         tprops[i] == props[i].(value := tprops[i].value)
         && ValCorr(Full, src, m, cp, Child(t, At(props[i].key)), props[i].value, tprops[i].value)
  }

  /** The clone target of `n` made by `deepClone`, `j` elements, entries, members
      or descriptors in.  An object receives all its descriptors at once at the end. */
  predicate FullTargetOk(src: map<Ref, Node>, m: map<Ref, Ref>, cp: map<Ref, Copy>, t: Ref, n: Node, tn: Node, j: nat)
  {
    match n
    case Arr(items) =>
      tn.Arr? && |tn.items| == j <= |items|
      && forall i :: 0 <= i < j ==> ValCorr(Full, src, m, cp, Child(t, At(Idx(i))), items[i], tn.items[i])
    case MapObj(es) =>
      tn.MapObj? && |tn.entries| == j <= |es|
      && forall i :: 0 <= i < j ==>
           ValCorr(Full, src, m, cp, Child(t, EntryKey(i)), es[i].0, tn.entries[i].0)
           && ValCorr(Full, src, m, cp, Child(t, EntryValue(i)), es[i].1, tn.entries[i].1)
    case SetObj(ms) =>
      tn.SetObj? && |tn.members| == j <= |ms|
      && forall i :: 0 <= i < j ==> ValCorr(Full, src, m, cp, Child(t, Member(i)), ms[i], tn.members[i])
    case Obj(proto, props) =>
      tn.Obj? && tn.proto == proto && j <= |props|
      && (if j < |props| then tn.props == [] else PropsCorr(src, m, cp, t, props, tn.props, j))
    case _ => false
  }

  predicate TargetOk(s: Strategy, src: map<Ref, Node>, m: map<Ref, Ref>, cp: map<Ref, Copy>, t: Ref, n: Node, tn: Node, j: nat)
  {
    if s == Basic then BasicTargetOk(src, m, cp, t, n, tn, j) else FullTargetOk(src, m, cp, t, n, tn, j)
  }

  /** How many slots a clone of `n` has to fill. */
  function Size(s: Strategy, n: Node): nat
  {
    if s == Basic then |OwnEnumStringKeys(n)|
    else match n
      case Arr(items) => |items|
      case MapObj(es) => |es|
      case SetObj(ms) => |ms|
      case Obj(_, props) => |props|
      case _ => 0
  }

  /** The clone of the registered source node `x` is complete. */
  predicate Done(s: Strategy, src: map<Ref, Node>, tgt: map<Ref, Node>, m: map<Ref, Ref>, cp: map<Ref, Copy>, x: Ref)
  {
    x in m && x in src && m[x] in tgt && TargetOk(s, src, m, cp, m[x], src[x], tgt[m[x]], Size(s, src[x]))
  }

  /** The bookkeeping of a clone run: the source is untouched, every clone and copy
      is a fresh node, the identity map is injective, and the copies are right. */
  predicate CloneInv(s: Strategy, h0: Heap, h: Heap, m: map<Ref, Ref>, cp: map<Ref, Copy>)
  {
    && Extends(h0, h)
    && (forall r :: r in h0.nodes ==> r < h0.next)
    && (forall r :: r in h.nodes ==> r < h.next)
    && (forall x :: x in m ==> x in h0.nodes && Registered(s, h0.nodes[x]) && h0.next <= m[x] < h.next && m[x] in h.nodes)
    && (forall x, y :: x in m && y in m && m[x] == m[y] ==> x == y)
    && (forall c :: c in cp ==> h0.next <= c < h.next && CopyOk(h0.nodes, h.nodes, cp, c) && CopiedInline(s, h0.nodes[cp[c].source]))
    && (forall x :: x in m ==> m[x] !in cp)
  }

  /** The outcome of cloning `v` out of `h0`: `h` holds `r`, a clone of `v`, and
      the complete clones of every registered node reached from it. */
  predicate IsClone(s: Strategy, h0: Heap, h: Heap, m: map<Ref, Ref>, cp: map<Ref, Copy>, v: Val, r: Val)
  {
    && CloneInv(s, h0, h, m, cp)
    && (forall x :: x in m ==> Done(s, h0.nodes, h.nodes, m, cp, x))
    && ValCorr(s, h0.nodes, m, cp, Root, v, r)
  }

  /** The empty clone `Array.isArray(n) ? [] : Object.create(Object.getPrototypeOf(n))`. */
  function BasicEmpty(n: Node): Node
  {
    if n.Arr? then Arr([]) else Obj(PrototypeOf(n), [])
  }

  /** The empty clone is a basic clone target with no slot filled: an array for
      an array, otherwise an object with the source's prototype. */
  lemma BasicEmptyOk(src: map<Ref, Node>, m: map<Ref, Ref>, cp: map<Ref, Copy>, t: Ref, n: Node)
    ensures TargetOk(Basic, src, m, cp, t, n, BasicEmpty(n), 0)
    ensures BasicEmpty(n).Arr? <==> n.Arr?
  {}

  /** The nodes of the source heap not yet registered. */
  function Unregistered(h0: Heap, m: map<Ref, Ref>): set<Ref>
  {
    h0.nodes.Keys - m.Keys
  }

  // ---------------------------------------------------------------------------
  // Growth: correspondences survive more entries in the maps

  lemma ValCorrGrows(s: Strategy, src: map<Ref, Node>, m: map<Ref, Ref>, cp: map<Ref, Copy>,
                     m': map<Ref, Ref>, cp': map<Ref, Copy>, o: Origin, sv: Val, tv: Val)
    requires ValCorr(s, src, m, cp, o, sv, tv) == true && Sub(m, m') == true && Sub(cp, cp') == true
    ensures ValCorr(s, src, m', cp', o, sv, tv)
  {}

  lemma {:induction false} TargetOkGrows(s: Strategy, src: map<Ref, Node>, m: map<Ref, Ref>, cp: map<Ref, Copy>,
                        m': map<Ref, Ref>, cp': map<Ref, Copy>, t: Ref, n: Node, tn: Node, j: nat)
    requires TargetOk(s, src, m, cp, t, n, tn, j) == true && Sub(m, m') == true && Sub(cp, cp') == true
    ensures TargetOk(s, src, m', cp', t, n, tn, j)
  {
    if s == Basic {
      var keys := OwnEnumStringKeys(n);
      if n.Arr? {
        forall i | 0 <= i < j
          ensures ValCorr(Basic, src, m', cp', Child(t, At(Idx(i))), n.items[i], tn.items[i])
        {
          ValCorrGrows(Basic, src, m, cp, m', cp', Child(t, At(Idx(i))), n.items[i], tn.items[i]);
        }
      } else {
        forall i | 0 <= i < j
          ensures ValCorr(Basic, src, m', cp', Child(t, At(keys[i])), Get(n, keys[i]), tn.props[i].value)
        {
          ValCorrGrows(Basic, src, m, cp, m', cp', Child(t, At(keys[i])), Get(n, keys[i]), tn.props[i].value);
        }
      }
    } else {
      match n
      case Arr(items) =>
        forall i | 0 <= i < j
          ensures ValCorr(Full, src, m', cp', Child(t, At(Idx(i))), items[i], tn.items[i])
        {
          ValCorrGrows(Full, src, m, cp, m', cp', Child(t, At(Idx(i))), items[i], tn.items[i]);
        }
      case MapObj(es) =>
        forall i | 0 <= i < j
          ensures ValCorr(Full, src, m', cp', Child(t, EntryKey(i)), es[i].0, tn.entries[i].0)
          ensures ValCorr(Full, src, m', cp', Child(t, EntryValue(i)), es[i].1, tn.entries[i].1)
        {
          ValCorrGrows(Full, src, m, cp, m', cp', Child(t, EntryKey(i)), es[i].0, tn.entries[i].0);
          ValCorrGrows(Full, src, m, cp, m', cp', Child(t, EntryValue(i)), es[i].1, tn.entries[i].1);
        }
      case SetObj(ms) =>
        forall i | 0 <= i < j
          ensures ValCorr(Full, src, m', cp', Child(t, Member(i)), ms[i], tn.members[i])
        {
          ValCorrGrows(Full, src, m, cp, m', cp', Child(t, Member(i)), ms[i], tn.members[i]);
        }
      case Obj(proto, props) =>
        if j == |props| {
          PropsCorrGrows(src, m, cp, m', cp', t, props, tn.props, j);
        }
    }
  }

  lemma PropsCorrGrows(src: map<Ref, Node>, m: map<Ref, Ref>, cp: map<Ref, Copy>,
                       m': map<Ref, Ref>, cp': map<Ref, Copy>, t: Ref, props: seq<Prop>, tprops: seq<Prop>, j: nat)
    requires PropsCorr(src, m, cp, t, props, tprops, j) == true && Sub(m, m') == true && Sub(cp, cp') == true
    ensures PropsCorr(src, m', cp', t, props, tprops, j)
  {
    forall i | 0 <= i < j
      ensures ValCorr(Full, src, m', cp', Child(t, At(props[i].key)), props[i].value, tprops[i].value)
    {
      ValCorrGrows(Full, src, m, cp, m', cp', Child(t, At(props[i].key)), props[i].value, tprops[i].value);
    }
  }

  /** A completed clone stays complete when the maps grow and its node is not rewritten. */
  lemma DoneKept(s: Strategy, src: map<Ref, Node>, tgt: map<Ref, Node>, tgt': map<Ref, Node>,
                 m: map<Ref, Ref>, cp: map<Ref, Copy>, m': map<Ref, Ref>, cp': map<Ref, Copy>, x: Ref)
    requires Done(s, src, tgt, m, cp, x) == true && Sub(m, m') == true && Sub(cp, cp') == true
    requires m[x] in tgt' && tgt'[m[x]] == tgt[m[x]]
    ensures Done(s, src, tgt', m', cp', x)
  {
    TargetOkGrows(s, src, m, cp, m', cp', m[x], src[x], tgt[m[x]], Size(s, src[x]));
  }

  // ---------------------------------------------------------------------------
  // The bookkeeping is kept by each kind of step

  /** Allocating the clone of a not yet registered node and registering it. */
  lemma InvRegister(s: Strategy, h0: Heap, h: Heap, m: map<Ref, Ref>, cp: map<Ref, Copy>, x: Ref, e: Node)
    requires CloneInv(s, h0, h, m, cp) == true && x in h0.nodes && Registered(s, h0.nodes[x]) && x !in m
    ensures CloneInv(s, h0, Alloc(h, e).0, m[x := h.next], cp)
    ensures Sub(m, m[x := h.next]) && Extends(h, Alloc(h, e).0)
  {
    var h1 := Alloc(h, e).0;
    forall c | c in cp ensures CopyOk(h0.nodes, h1.nodes, cp, c) {
      var n := h0.nodes[cp[c].source];
      if n.View? {
        assert h1.nodes[c] == h.nodes[c];
      }
    }
  }

  /** Allocating an inline copy (anything but a DataView) of `x` for origin `o`. */
  lemma InvCopy(s: Strategy, h0: Heap, h: Heap, m: map<Ref, Ref>, cp: map<Ref, Copy>, x: Ref, o: Origin)
    requires CloneInv(s, h0, h, m, cp) == true && x in h0.nodes && CopiedInline(s, h0.nodes[x]) && !h0.nodes[x].View?
    ensures CloneInv(s, h0, Alloc(h, h0.nodes[x]).0, m, cp[h.next := Copy(x, o)])
    ensures Sub(cp, cp[h.next := Copy(x, o)]) && Extends(h, Alloc(h, h0.nodes[x]).0)
  {
    var h1 := Alloc(h, h0.nodes[x]).0;
    var cp1 := cp[h.next := Copy(x, o)];
    forall c | c in cp1 ensures CopyOk(h0.nodes, h1.nodes, cp1, c) {
      if c != h.next {
        var n := h0.nodes[cp[c].source];
        if n.View? {
          assert CopyOk(h0.nodes, h.nodes, cp, c);
          assert h.nodes[c].buffer in cp;
          assert cp1[h.nodes[c].buffer] == cp[h.nodes[c].buffer];
        }
      }
    }
  }

  /** Allocating a DataView copy of `x` over the buffer copy allocated just before it. */
  lemma InvAddView(h0: Heap, h: Heap, m: map<Ref, Ref>, cp: map<Ref, Copy>, x: Ref, o: Origin)
    requires CloneInv(Full, h0, h, m, cp) == true && x in h0.nodes && h0.nodes[x].View?
    requires h.next >= 1 && h.next - 1 in cp && cp[h.next - 1] == Copy(h0.nodes[x].buffer, BufferOf(h.next))
    ensures var n := h0.nodes[x];
      CloneInv(Full, h0, Alloc(h, View(h.next - 1, n.offset, n.length)).0, m, cp[h.next := Copy(x, o)])
      && Sub(cp, cp[h.next := Copy(x, o)]) && Extends(h, Alloc(h, View(h.next - 1, n.offset, n.length)).0)
  {
    var n := h0.nodes[x];
    var h1 := Alloc(h, View(h.next - 1, n.offset, n.length)).0;
    var cp1 := cp[h.next := Copy(x, o)];
    forall c | c in cp1 ensures CopyOk(h0.nodes, h1.nodes, cp1, c) {
      if c != h.next {
        var k := h0.nodes[cp[c].source];
        if k.View? {
          assert CopyOk(h0.nodes, h.nodes, cp, c);
          assert cp1[h.nodes[c].buffer] == cp[h.nodes[c].buffer];
        }
      }
    }
  }

  /** Rewriting the clone node of a registered `x`. */
  lemma InvStore(s: Strategy, h0: Heap, h: Heap, m: map<Ref, Ref>, cp: map<Ref, Copy>, x: Ref, e: Node)
    requires CloneInv(s, h0, h, m, cp) == true && x in m
    ensures CloneInv(s, h0, Store(h, m[x], e), m, cp)
  {
    var h1 := Store(h, m[x], e);
    forall c | c in cp ensures CopyOk(h0.nodes, h1.nodes, cp, c) {
      assert h1.nodes[c] == h.nodes[c];
    }
  }

  /** `target[key] = clone` for the next key of `Object.keys(n)` extends a basic
      clone target by one slot. */
  lemma BasicWrite(src: map<Ref, Node>, m: map<Ref, Ref>, cp: map<Ref, Copy>, m': map<Ref, Ref>, cp': map<Ref, Copy>,
                   t: Ref, n: Node, tn: Node, j: nat, tv: Val)
    requires BasicTargetOk(src, m, cp, t, n, tn, j) == true && Sub(m, m') == true && Sub(cp, cp') == true
    requires j < |OwnEnumStringKeys(n)| && DistinctKeySeq(OwnEnumStringKeys(n))
    requires ValCorr(Basic, src, m', cp', Child(t, At(OwnEnumStringKeys(n)[j])), Get(n, OwnEnumStringKeys(n)[j]), tv) == true
    ensures (tn.Arr? || tn.Obj?) && BasicTargetOk(src, m', cp', t, n, SetKey(tn, OwnEnumStringKeys(n)[j], tv), j + 1)
  {
    var keys := OwnEnumStringKeys(n);
    TargetOkGrows(Basic, src, m, cp, m', cp', t, n, tn, j);
    if n.Arr? {
      SetKeyAppends(tn, keys[j], tv);
    } else {
      forall i | 0 <= i < |tn.props| ensures tn.props[i].key != keys[j] {
        assert tn.props[i].key == keys[i];
      }
      SetKeyAppends(tn, keys[j], tv);
      var tn' := SetKey(tn, keys[j], tv);
      assert tn'.props[j].key == keys[j];
    }
  }

  // ---------------------------------------------------------------------------
  // Consequences

  /** Distinct source values (of the source heap) have distinct clones: the
      identity map is injective, copies of different sources are different, and
      clones never coincide with nodes of the source heap. */
  lemma {:induction false} ValCorrInjective(s: Strategy, h0: Heap, h: Heap, m: map<Ref, Ref>, cp: map<Ref, Copy>,
                          o1: Origin, o2: Origin, a: Val, b: Val, ta: Val, tb: Val)
    requires ValidHeap(h0) == true && CloneInv(s, h0, h, m, cp) == true
    requires ValCorr(s, h0.nodes, m, cp, o1, a, ta) == true && ValCorr(s, h0.nodes, m, cp, o2, b, tb) == true
    requires a != b
    ensures ta != tb
  {
    if a.R? && b.R? {
      var na, nb := h0.nodes[a.ref], h0.nodes[b.ref];
      if na.Func? && !nb.Func? {
        if CopiedInline(s, nb) {
          assert h0.next <= tb.ref;
        } else {
          assert h0.next <= m[b.ref];
        }
      } else if nb.Func? && !na.Func? {
        if CopiedInline(s, na) {
          assert h0.next <= ta.ref;
        } else {
          assert h0.next <= m[a.ref];
        }
      }
    }
  }

  /** Two references to one inline-copied node from different places give two
      different copies. */
  lemma DistinctCopies(s: Strategy, src: map<Ref, Node>, m: map<Ref, Ref>, cp: map<Ref, Copy>,
                       o1: Origin, o2: Origin, x: Ref, t1: Val, t2: Val)
    requires x in src && CopiedInline(s, src[x])
    requires ValCorr(s, src, m, cp, o1, R(x), t1) == true && ValCorr(s, src, m, cp, o2, R(x), t2) == true
    requires o1 != o2
    ensures t1 != t2 && t1.R? && t2.R? && cp[t1.ref].source == x == cp[t2.ref].source
  {}

  /** A registered node reached twice (say, through a self-reference) has one
      clone: every reference to it is rewritten to that clone. */
  lemma SharedClone(s: Strategy, src: map<Ref, Node>, m: map<Ref, Ref>, cp: map<Ref, Copy>,
                    o1: Origin, o2: Origin, x: Ref, t1: Val, t2: Val)
    requires x in src && Registered(s, src[x])
    requires ValCorr(s, src, m, cp, o1, R(x), t1) == true && ValCorr(s, src, m, cp, o2, R(x), t2) == true
    ensures x in m && t1 == t2 == R(m[x])
  {}
}
