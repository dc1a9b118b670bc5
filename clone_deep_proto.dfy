/**
 * The descriptor map that `deepClone` builds for a plain object, as the code
 * writes it, next to `CloneDeep.FillObject`, which copies every own property.
 */
module CloneDeepProto {
  import opened JsValues
  import opened JsHeap

  /** The descriptor map as `props.reduce((acc, prop) => { acc[prop] = descriptor; ... }, {})`
      builds it: `acc` is an ordinary object, so the assignment `acc["__proto__"] = descriptor`
      runs the inherited `__proto__` setter, which replaces the prototype of `acc` and
      creates no own property.  `Object.defineProperties` then never sees that descriptor. */
  function DescriptorsAsWritten(props: seq<Prop>): (acc: seq<Prop>)
    ensures |acc| <= |props|
    ensures forall q :: q in acc ==> q in props && q.key != Name("__proto__")
    ensures (forall j :: 0 <= j < |props| ==> props[j].key != Name("__proto__")) ==> acc == props
  {
    if props == [] then []
    else
      var acc := DescriptorsAsWritten(props[..|props| - 1]);
      var last := props[|props| - 1];
      PrefixMembers(props);
      if last.key == Name("__proto__") then acc else acc + [last]
  }

  lemma PrefixMembers(props: seq<Prop>)
    requires props != []
    ensures forall q :: q in props[..|props| - 1] ==> q in props
  {}

  /** An own data property named `"__proto__"` (as `JSON.parse('{"__proto__": 1}')`
      makes) is lost: the descriptor map as written is shorter than the source's
      own keys, whereas `FillObject` defines every one of them. */
  lemma {:induction false} ProtoDescriptorLost(props: seq<Prop>, j: nat)
    requires j < |props| && props[j].key == Name("__proto__")
    ensures |DescriptorsAsWritten(props)| < |props|
    ensures props[j] !in DescriptorsAsWritten(props)
  {
    if |DescriptorsAsWritten(props)| == |props| {
      AllKept(props);
      assert false;
    }
  }

  /** Keeping as many descriptors as there are means keeping all of them. */
  lemma {:induction false} AllKept(props: seq<Prop>)
    requires |DescriptorsAsWritten(props)| == |props|
    ensures DescriptorsAsWritten(props) == props
  {
    if props != [] {
      var init := props[..|props| - 1];
      assert |DescriptorsAsWritten(init)| <= |init|;
      if props[|props| - 1].key == Name("__proto__") {
        assert false;
      } else {
        AllKept(init);
        assert init + [props[|props| - 1]] == props;
      }
    }
  }

  /** The concrete case: `{"__proto__": 1}` clones to an object with no own property. */
  lemma JsonProtoExample()
    ensures DescriptorsAsWritten([Prop(Name("__proto__"), P(Num(1)), true, true, true)]) == []
  {
    var props := [Prop(Name("__proto__"), P(Num(1)), true, true, true)];
    assert props[..0] == [];
  }
}
