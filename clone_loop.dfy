/**
 * `cloneLoop`: deep clone with an explicit stack of tasks instead of recursion.
 * A task says: copy these keys of this source node into this fresh clone.  A
 * WeakMap from source node to clone is consulted before anything is allocated,
 * and a node is entered in it before its task is pushed.
 */
module CloneLoop {
  import opened JsValues
  import opened JsHeap
  import opened CloneSpec

  /** A task of the stack: the keys of `source` still to be copied into `target`. */
  datatype Frame = Frame(source: Ref, target: Ref, keys: seq<Key>)

  function Sources(stack: seq<Frame>): set<Ref>
  {
    set k | 0 <= k < |stack| :: stack[k].source
  }

  lemma SourcesAppend(stack: seq<Frame>, f: Frame)
    ensures Sources(stack + [f]) == Sources(stack) + {f.source}
  {
    var stack1 := stack + [f];
    forall y | y in Sources(stack1) ensures y in Sources(stack) + {f.source} {
      var k :| 0 <= k < |stack1| && stack1[k].source == y;
      if k < |stack| { assert stack[k] == stack1[k]; }
    }
    forall y | y in Sources(stack) ensures y in Sources(stack1) {
      var k :| 0 <= k < |stack| && stack[k].source == y;
      assert stack1[k] == stack[k];
    }
    assert stack1[|stack|] == f;
  }

  /** Every task is a registered node with an untouched empty clone, listed once. */
  predicate StackOk(h0: Heap, h: Heap, clones: map<Ref, Ref>, stack: seq<Frame>)
  {
    && (forall k :: 0 <= k < |stack| ==>
          && stack[k].source in clones && stack[k].source in h0.nodes
          && stack[k].target == clones[stack[k].source] && stack[k].target in h.nodes
          && stack[k].keys == OwnEnumStringKeys(h0.nodes[stack[k].source])
          && h.nodes[stack[k].target] == BasicEmpty(h0.nodes[stack[k].source]))
    && (forall k1, k2 :: 0 <= k1 < k2 < |stack| ==> stack[k1].source != stack[k2].source)
  }

  predicate AllDone(h0: Heap, h: Heap, clones: map<Ref, Ref>, cp: map<Ref, Copy>, done: set<Ref>)
  {
    forall x :: x in done ==> Done(Basic, h0.nodes, h.nodes, clones, cp, x)
  }

  /** When the heap changes only at `t`, the clone of no other node changes. */
  lemma KeptApartFrom(h0: Heap, h: Heap, h': Heap, clones: map<Ref, Ref>, clones': map<Ref, Ref>,
                      cp: map<Ref, Copy>, cp': map<Ref, Copy>, stack: seq<Frame>, done: set<Ref>, p: Ref)
    requires CloneInv(Basic, h0, h, clones, cp) == true && p in clones
    requires StackOk(h0, h, clones, stack) == true && AllDone(h0, h, clones, cp, done) == true
    requires p !in done && p !in Sources(stack)
    requires Sub(clones, clones') == true && Sub(cp, cp') == true
    requires KeptExcept(h, h', clones[p]) == true
    ensures StackOk(h0, h', clones', stack) && AllDone(h0, h', clones', cp', done)
  {
    forall k | 0 <= k < |stack| ensures stack[k].target != clones[p] {
      assert stack[k].source in Sources(stack);
    }
    forall x | x in done ensures Done(Basic, h0.nodes, h'.nodes, clones', cp', x) {
      DoneKept(Basic, h0.nodes, h.nodes, h'.nodes, clones, cp, clones', cp', x);
    }
  }

  /** The state between two tasks: `done` holds the nodes whose clones are complete. */
  predicate Between(h0: Heap, h: Heap, clones: map<Ref, Ref>, cp: map<Ref, Copy>, stack: seq<Frame>, done: set<Ref>)
  {
    && CloneInv(Basic, h0, h, clones, cp)
    && StackOk(h0, h, clones, stack) && AllDone(h0, h, clones, cp, done)
    && done !! Sources(stack)
  }

  /** The state while the task of `source` is being worked off, `i` keys in. */
  predicate Working(h0: Heap, h: Heap, clones: map<Ref, Ref>, cp: map<Ref, Copy>, stack: seq<Frame>, done: set<Ref>,
                    source: Ref, target: Ref, i: nat)
  {
    && Between(h0, h, clones, cp, stack, done)
    && source in clones && clones[source] == target && source in h0.nodes
    && BasicTargetOk(h0.nodes, clones, cp, target, h0.nodes[source], h.nodes[target], i)
    && source !in done && source !in Sources(stack)
    && clones.Keys == done + Sources(stack) + {source}
  }

  /** The parts of `Between`, put together. */
  lemma MakeBetween(h0: Heap, h: Heap, clones: map<Ref, Ref>, cp: map<Ref, Copy>, stack: seq<Frame>, done: set<Ref>)
    requires CloneInv(Basic, h0, h, clones, cp) == true
    requires StackOk(h0, h, clones, stack) == true && AllDone(h0, h, clones, cp, done) == true
    requires done !! Sources(stack)
    ensures Between(h0, h, clones, cp, stack, done)
  {}

  /** The parts of `Working`, put together. */
  lemma MakeWorking(h0: Heap, h: Heap, clones: map<Ref, Ref>, cp: map<Ref, Copy>, stack: seq<Frame>, done: set<Ref>,
                    source: Ref, target: Ref, i: nat)
    requires CloneInv(Basic, h0, h, clones, cp) == true
    requires StackOk(h0, h, clones, stack) == true && AllDone(h0, h, clones, cp, done) == true
    requires done !! Sources(stack)
    requires source in clones && clones[source] == target && source in h0.nodes
    requires BasicTargetOk(h0.nodes, clones, cp, target, h0.nodes[source], h.nodes[target], i) == true
    requires source !in done && source !in Sources(stack)
    requires clones.Keys == done + Sources(stack) + {source}
    ensures Working(h0, h, clones, cp, stack, done, source, target, i)
  {}

  /** Registering `x` and pushing its task keeps the registered nodes those that
      are done, on the stack, or being worked on. */
  lemma KeysAfterPush(clones: map<Ref, Ref>, y: Ref, done: set<Ref>, sources: set<Ref>, sources': set<Ref>, x: Ref, source: Ref)
    requires clones.Keys == done + sources + {source} && sources' == sources + {x}
    requires x !in clones && done !! sources
    ensures clones[x := y].Keys == done + sources' + {source} && done !! sources'
    ensures source !in sources' <==> source !in sources
  {}

  /** `target[key] = tv` for the `i`-th key of the task's source, in a heap `h1`
      that only adds nodes to `h`, completes one more slot of the target. */
  lemma WriteTarget(h0: Heap, h: Heap, h1: Heap, clones: map<Ref, Ref>, clones1: map<Ref, Ref>,
                    cp: map<Ref, Copy>, cp1: map<Ref, Copy>, source: Ref, target: Ref, i: nat, tv: Val)
    requires ValidHeap(h0) == true && source in h0.nodes && target in h.nodes
    requires BasicTargetOk(h0.nodes, clones, cp, target, h0.nodes[source], h.nodes[target], i) == true
    requires Sub(clones, clones1) == true && Sub(cp, cp1) == true && Extends(h, h1) == true
    requires i < |OwnEnumStringKeys(h0.nodes[source])|
    requires var key := OwnEnumStringKeys(h0.nodes[source])[i];
      ValCorr(Basic, h0.nodes, clones1, cp1, Child(target, At(key)), Get(h0.nodes[source], key), tv)
    ensures h1.nodes[target].Arr? || h1.nodes[target].Obj?
    ensures var key := OwnEnumStringKeys(h0.nodes[source])[i];
      var h2 := Store(h1, target, SetKey(h1.nodes[target], key, tv));
      BasicTargetOk(h0.nodes, clones1, cp1, target, h0.nodes[source], h2.nodes[target], i + 1)
  {
    var sn := h0.nodes[source];
    OwnKeysDistinct(sn, h0.nodes.Keys);
    BasicWrite(h0.nodes, clones, cp, clones1, cp1, target, sn, h.nodes[target], i, tv);
  }

  /** The same step when nothing new was registered. */
  lemma WriteStep(h0: Heap, h: Heap, h1: Heap, clones: map<Ref, Ref>, cp: map<Ref, Copy>, cp1: map<Ref, Copy>,
                  stack: seq<Frame>, done: set<Ref>, source: Ref, target: Ref, i: nat, tv: Val)
    requires ValidHeap(h0) == true && Working(h0, h, clones, cp, stack, done, source, target, i) == true
    requires i < |OwnEnumStringKeys(h0.nodes[source])|
    requires CloneInv(Basic, h0, h1, clones, cp1) == true && Sub(cp, cp1) == true && Extends(h, h1) == true
    requires var key := OwnEnumStringKeys(h0.nodes[source])[i];
      ValCorr(Basic, h0.nodes, clones, cp1, Child(target, At(key)), Get(h0.nodes[source], key), tv)
    ensures var key := OwnEnumStringKeys(h0.nodes[source])[i];
      Working(h0, Store(h1, target, SetKey(h1.nodes[target], key, tv)), clones, cp1, stack, done, source, target, i + 1)
  {
    var key := OwnEnumStringKeys(h0.nodes[source])[i];
    WriteTarget(h0, h, h1, clones, clones, cp, cp1, source, target, i, tv);
    var e := SetKey(h1.nodes[target], key, tv);
    InvStore(Basic, h0, h1, clones, cp1, source, e);
    StoreKeepsOthers(h, h1, target, e);
    KeptApartFrom(h0, h, Store(h1, target, e), clones, clones, cp, cp1, stack, done, source);
    MakeWorking(h0, Store(h1, target, e), clones, cp1, stack, done, source, target, i + 1);
  }

  /** A new frame for a node not yet registered keeps the stack well formed. */
  lemma PushFrame(h0: Heap, h: Heap, clones: map<Ref, Ref>, stack: seq<Frame>, x: Ref)
    requires StackOk(h0, h, clones, stack) == true && x !in Sources(stack)
    requires x in clones && x in h0.nodes && clones[x] in h.nodes && h.nodes[clones[x]] == BasicEmpty(h0.nodes[x])
    ensures var stack1 := stack + [Frame(x, clones[x], OwnEnumStringKeys(h0.nodes[x]))];
      StackOk(h0, h, clones, stack1) && Sources(stack1) == Sources(stack) + {x}
  {
    SourcesAppend(stack, Frame(x, clones[x], OwnEnumStringKeys(h0.nodes[x])));
    forall k | 0 <= k < |stack| ensures stack[k].source != x {
      assert stack[k].source in Sources(stack);
    }
  }

  /** Registering a new clone for the node `x` met at the `i`-th key, writing it
      into the target and pushing its task moves the task on by one key. */
  lemma PushStep(h0: Heap, h: Heap, clones: map<Ref, Ref>, cp: map<Ref, Copy>,
                 stack: seq<Frame>, done: set<Ref>, source: Ref, target: Ref, i: nat, x: Ref)
    requires ValidHeap(h0) == true && Working(h0, h, clones, cp, stack, done, source, target, i) == true
    requires i < |OwnEnumStringKeys(h0.nodes[source])|
    requires Get(h0.nodes[source], OwnEnumStringKeys(h0.nodes[source])[i]) == R(x)
    requires x in h0.nodes && Registered(Basic, h0.nodes[x]) && x !in clones
    ensures var key := OwnEnumStringKeys(h0.nodes[source])[i];
      var h1 := Alloc(h, BasicEmpty(h0.nodes[x])).0;
      var h2 := Store(h1, target, SetKey(h1.nodes[target], key, R(h.next)));
      var clones1 := clones[x := h.next];
      var stack1 := stack + [Frame(x, h.next, OwnEnumStringKeys(h0.nodes[x]))];
      Working(h0, h2, clones1, cp, stack1, done, source, target, i + 1) == true
  {
    var sn := h0.nodes[source];
    var key := OwnEnumStringKeys(sn)[i];
    var e := BasicEmpty(h0.nodes[x]);
    var h1 := Alloc(h, e).0;
    var clones1 := clones[x := h.next];
    InvRegister(Basic, h0, h, clones, cp, x, e);
    WriteTarget(h0, h, h1, clones, clones1, cp, cp, source, target, i, R(h.next));
    var t := SetKey(h1.nodes[target], key, R(h.next));
    InvStore(Basic, h0, h1, clones1, cp, source, t);
    StoreKeepsOthers(h, h1, target, t);
    var h2 := Store(h1, target, t);
    KeptApartFrom(h0, h, h2, clones, clones1, cp, cp, stack, done, source);
    assert x !in Sources(stack);
    assert h.next != target;
    PushFrame(h0, h2, clones1, stack, x);
    var stack1 := stack + [Frame(x, h.next, OwnEnumStringKeys(h0.nodes[x]))];
    KeysAfterPush(clones, h.next, done, Sources(stack), Sources(stack1), x, source);
    MakeWorking(h0, h2, clones1, cp, stack1, done, source, target, i + 1);
  }

  /** One turn of `for (const key of keys)`: copy `source[key]` into `target[key]`,
      reusing a registered clone, rebuilding a Date or RegExp, or registering a
      new empty clone and pushing its task. */
  method CopyKey(h0: Heap, h: Heap, clones: map<Ref, Ref>, ghost cp: map<Ref, Copy>, stack: seq<Frame>, ghost done: set<Ref>,
                 source: Ref, target: Ref, i: nat)
    returns (h': Heap, clones': map<Ref, Ref>, ghost cp': map<Ref, Copy>, stack': seq<Frame>)
    requires ValidHeap(h0) == true && Working(h0, h, clones, cp, stack, done, source, target, i) == true
    requires i < |OwnEnumStringKeys(h0.nodes[source])|
    ensures Working(h0, h', clones', cp', stack', done, source, target, i + 1) == true
    ensures Grew(clones, clones', stack, stack') == true
  {
    var key := OwnEnumStringKeys(h.nodes[source])[i];
    var sourceValue := Get(h.nodes[source], key);
    assert ValidVal(h0, sourceValue) by { GetClosed(h0, source, key); }
    clones', stack' := clones, stack;
    GrewSame(clones, stack);
    if sourceValue.P? || h.nodes[sourceValue.ref].Func? {
      WriteStep(h0, h, h, clones, cp, cp, stack, done, source, target, i, sourceValue);
      h', cp' := Store(h, target, SetKey(h.nodes[target], key, sourceValue)), cp;
    } else if sourceValue.ref in clones {
      var tv := R(clones[sourceValue.ref]);
      WriteStep(h0, h, h, clones, cp, cp, stack, done, source, target, i, tv);
      h', cp' := Store(h, target, SetKey(h.nodes[target], key, tv)), cp;
    } else if h.nodes[sourceValue.ref].Date? || h.nodes[sourceValue.ref].RegExp? {
      InvCopy(Basic, h0, h, clones, cp, sourceValue.ref, Child(target, At(key)));
      var b := Alloc(h, h.nodes[sourceValue.ref]);
      cp' := cp[b.1 := Copy(sourceValue.ref, Child(target, At(key)))];
      WriteStep(h0, h, b.0, clones, cp, cp', stack, done, source, target, i, R(b.1));
      h' := Store(b.0, target, SetKey(b.0.nodes[target], key, R(b.1)));
    } else {
      var sub := h.nodes[sourceValue.ref];
      PushStep(h0, h, clones, cp, stack, done, source, target, i, sourceValue.ref);
      var b := Alloc(h, BasicEmpty(sub));
      clones' := clones[sourceValue.ref := b.1];
      GrewAdd(clones, sourceValue.ref, b.1, stack, stack + [Frame(sourceValue.ref, b.1, OwnEnumStringKeys(sub))]);
      h' := Store(b.0, target, SetKey(b.0.nodes[target], key, R(b.1)));
      stack' := stack + [Frame(sourceValue.ref, b.1, OwnEnumStringKeys(sub))];
      cp' := cp;
    }
  }

  /** The identity map only grows, and the stack changes only when it does. */
  predicate Grew(clones: map<Ref, Ref>, clones': map<Ref, Ref>, stack: seq<Frame>, stack': seq<Frame>)
  {
    Sub(clones, clones') && clones.Keys <= clones'.Keys && (clones'.Keys == clones.Keys ==> stack' == stack)
  }

  lemma GrewSame(clones: map<Ref, Ref>, stack: seq<Frame>)
    ensures Grew(clones, clones, stack, stack)
  {}

  lemma GrewAdd(clones: map<Ref, Ref>, x: Ref, y: Ref, stack: seq<Frame>, stack': seq<Frame>)
    requires x !in clones
    ensures Grew(clones, clones[x := y], stack, stack')
  {
    assert x in clones[x := y].Keys;
  }

  lemma GrewTransitive(clones: map<Ref, Ref>, clones': map<Ref, Ref>, clones'': map<Ref, Ref>,
                       stack: seq<Frame>, stack': seq<Frame>, stack'': seq<Frame>)
    requires Grew(clones, clones', stack, stack') == true && Grew(clones', clones'', stack', stack'') == true
    ensures Grew(clones, clones'', stack, stack'')
  {}

  /** Popping the top task of a well-formed stack. */
  lemma PopStack(h0: Heap, h: Heap, clones: map<Ref, Ref>, stack: seq<Frame>, done: set<Ref>)
    requires StackOk(h0, h, clones, stack) == true && done !! Sources(stack) && clones.Keys == done + Sources(stack) && |stack| > 0
    ensures var f, popped := stack[|stack| - 1], stack[..|stack| - 1];
      && StackOk(h0, h, clones, popped) && done !! Sources(popped)
      && f.source !in done && f.source !in Sources(popped)
      && clones.Keys == done + Sources(popped) + {f.source}
  {
    var f := stack[|stack| - 1];
    var popped := stack[..|stack| - 1];
    assert stack == popped + [f];
    SourcesAppend(popped, f);
    assert f.source !in Sources(popped) by {
      forall k | 0 <= k < |popped| ensures popped[k].source != f.source {
        assert popped[k] == stack[k];
      }
    }
    assert StackOk(h0, h, clones, popped) by {
      forall k | 0 <= k < |popped| ensures popped[k] == stack[k] {}
    }
  }

  /** Popping the top task starts working on it. */
  lemma PopFrame(h0: Heap, h: Heap, clones: map<Ref, Ref>, cp: map<Ref, Copy>, stack: seq<Frame>, done: set<Ref>)
    requires Between(h0, h, clones, cp, stack, done) == true && clones.Keys == done + Sources(stack) && |stack| > 0
    ensures var f := stack[|stack| - 1];
      && Working(h0, h, clones, cp, stack[..|stack| - 1], done, f.source, f.target, 0) == true
      && f.keys == OwnEnumStringKeys(h0.nodes[f.source])
  {
    PopStack(h0, h, clones, stack, done);
  }

  /** A task whose keys are all copied is complete. */
  lemma FinishFrame(h0: Heap, h: Heap, clones: map<Ref, Ref>, cp: map<Ref, Copy>, stack: seq<Frame>, done: set<Ref>,
                    source: Ref, target: Ref)
    requires source in h0.nodes
    requires Working(h0, h, clones, cp, stack, done, source, target, |OwnEnumStringKeys(h0.nodes[source])|) == true
    ensures Between(h0, h, clones, cp, stack, done + {source}) == true && clones.Keys == done + {source} + Sources(stack)
  {}

  /** With the stack empty every registered node is complete. */
  lemma FinishAll(h0: Heap, h: Heap, clones: map<Ref, Ref>, cp: map<Ref, Copy>, done: set<Ref>, x: Ref)
    requires Between(h0, h, clones, cp, [], done) == true && clones.Keys == done + Sources([])
    requires x in h0.nodes && Registered(Basic, h0.nodes[x]) && x in clones
    ensures IsClone(Basic, h0, h, clones, cp, R(x), R(clones[x])) == true
  {}

  /** The root registered and its task pushed. */
  lemma Start(h0: Heap, x: Ref)
    requires ValidHeap(h0) == true && x in h0.nodes && Registered(Basic, h0.nodes[x])
    ensures var a := Alloc(h0, BasicEmpty(h0.nodes[x]));
      var clones := map[x := a.1];
      var stack := [Frame(x, a.1, OwnEnumStringKeys(h0.nodes[x]))];
      Between(h0, a.0, clones, map[], stack, {}) == true && clones.Keys == {} + Sources(stack)
  {
    var e := BasicEmpty(h0.nodes[x]);
    InvRegister(Basic, h0, h0, map[], map[], x, e);
    var a := Alloc(h0, e);
    var clones := map[x := a.1];
    assert StackOk(h0, a.0, clones, []) && Sources([]) == {};
    PushFrame(h0, a.0, clones, [], x);
    var stack := [Frame(x, a.1, OwnEnumStringKeys(h0.nodes[x]))];
    MakeBetween(h0, a.0, clones, map[], stack, {});
  }

  /** `for (const key of keys)`: work off the popped task of `source`. */
  method RunTask(h0: Heap, h: Heap, clones: map<Ref, Ref>, ghost cp: map<Ref, Copy>, stack: seq<Frame>, ghost done: set<Ref>,
                 source: Ref, target: Ref, keys: seq<Key>)
    returns (h': Heap, clones': map<Ref, Ref>, ghost cp': map<Ref, Copy>, stack': seq<Frame>)
    requires ValidHeap(h0) == true && Working(h0, h, clones, cp, stack, done, source, target, 0) == true
    requires keys == OwnEnumStringKeys(h0.nodes[source])
    ensures Between(h0, h', clones', cp', stack', done + {source}) == true && clones'.Keys == done + {source} + Sources(stack')
    ensures Grew(clones, clones', stack, stack') == true
  {
    h', clones', cp', stack' := h, clones, cp, stack;
    GrewSame(clones, stack);
    var i := 0;
    while i < |keys|
      invariant 0 <= i <= |keys|
      invariant Working(h0, h', clones', cp', stack', done, source, target, i) == true
      invariant Grew(clones, clones', stack, stack') == true
    {
      var h1, clones1, cp1, stack1 := CopyKey(h0, h', clones', cp', stack', done, source, target, i);
      GrewTransitive(clones, clones', clones1, stack, stack', stack1);
      h', clones', cp', stack' := h1, clones1, cp1, stack1;
      i := i + 1;
    }
    assert i == |OwnEnumStringKeys(h0.nodes[source])|;
    FinishFrame(h0, h', clones', cp', stack', done, source, target);
  }

  /** A task either registers new nodes or leaves a shorter stack. */
  lemma Progress(h0: Heap, h: Heap, clones: map<Ref, Ref>, clones': map<Ref, Ref>, cp': map<Ref, Copy>,
                 stack: seq<Frame>, stack': seq<Frame>, done': set<Ref>)
    requires |stack| > 0 && Grew(clones, clones', stack[..|stack| - 1], stack') == true
    requires Between(h0, h, clones', cp', stack', done') == true
    ensures Unregistered(h0, clones') < Unregistered(h0, clones)
         || (Unregistered(h0, clones') == Unregistered(h0, clones) && |stack'| < |stack|)
  {
    if clones'.Keys != clones.Keys {
      var x :| x in clones'.Keys && x !in clones.Keys;
      assert x in Unregistered(h0, clones);
    }
  }

  /** `cloneLoop(value)`: the result `r` in heap `h` is a clone of `value` out of `h0`. */
  method CloneLoop(h0: Heap, value: Val) returns (h: Heap, r: Val, ghost m: map<Ref, Ref>, ghost cp: map<Ref, Copy>)
    requires ValidHeap(h0) == true && ValidVal(h0, value)
    ensures IsClone(Basic, h0, h, m, cp, value, r)
  {
    h, m, cp := h0, map[], map[];
    if value.P? || h.nodes[value.ref].Func? {
      return h, value, m, cp;
    }
    var n := h.nodes[value.ref];
    if n.Date? || n.RegExp? {
      InvCopy(Basic, h0, h, m, cp, value.ref, Root);
      var a := Alloc(h, n);
      h, cp := a.0, cp[a.1 := Copy(value.ref, Root)];
      return h, R(a.1), m, cp;
    }

    Start(h0, value.ref);
    var a := Alloc(h, BasicEmpty(n));
    var rootTarget := a.1;
    h := a.0;
    var clones: map<Ref, Ref> := map[value.ref := rootTarget];
    var stack := [Frame(value.ref, rootTarget, OwnEnumStringKeys(n))];
    ghost var done: set<Ref> := {};

    while |stack| > 0
      invariant Between(h0, h, clones, cp, stack, done) == true
      invariant value.ref in clones && clones[value.ref] == rootTarget
      invariant clones.Keys == done + Sources(stack)
      decreases Unregistered(h0, clones), |stack|
    {
      PopFrame(h0, h, clones, cp, stack, done);
      ghost var clones0, stack0 := clones, stack;
      var frame := stack[|stack| - 1];
      stack := stack[..|stack| - 1];
      var source, target, keys := frame.source, frame.target, frame.keys;
      h, clones, cp, stack := RunTask(h0, h, clones, cp, stack, done, source, target, keys);
      Progress(h0, h, clones0, clones, cp, stack0, stack, done + {source});
      done := done + {source};
    }
    FinishAll(h0, h, clones, cp, done, value.ref);
    m := clones;
    r := R(rootTarget);
  }
}
