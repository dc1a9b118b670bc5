/**
 * The fallback `assign(target, ...sources)`: for each source in turn, every
 * own enumerable string-keyed property is written onto `target`, which is
 * returned.
 */
module Assign {
  import opened JsValues
  import opened JsData

  /** The target object, whose properties the loop overwrites in place. */
  class Target {
    var props: map<string, Value>

    constructor (props: map<string, Value>)
      ensures this.props == props
    {
      this.props := props;
    }
  }

  /** The target's properties after copying `sources` onto `props` in order. */
  function Merged(props: map<string, Value>, sources: seq<Value>): map<string, Value>
  {
    if sources == [] then props
    else Merged(props, sources[..|sources| - 1]) + Spread(sources[|sources| - 1])
  }

  /** `for (const key in source) if (hasOwn(source, key)) target[key] = source[key]`:
      the keys of `{ ...source }`, in any order. */
  method CopyOwn(target: Target, source: Value)
    modifies target
    ensures target.props == old(target.props) + Spread(source)
  {
    var own := Spread(source);
    var todo := own.Keys;
    while todo != {}
      invariant todo <= own.Keys
      invariant forall k :: k in target.props <==> k in old(target.props) || (k in own && k !in todo)
      invariant forall k :: k in target.props ==>
                  target.props[k] == if k in own && k !in todo then own[k] else old(target.props)[k]
      decreases todo
    {
      var key :| key in todo;
      target.props := target.props[key := own[key]];
      todo := todo - {key};
    }
    assert target.props == old(target.props) + own;
  }

  /** `assign(target, ...sources)`. */
  method Assign(target: Target, sources: seq<Value>) returns (r: Target)
    modifies target
    ensures r == target
    ensures target.props == Merged(old(target.props), sources)
  {
    var i := 0;
    while i < |sources|
      invariant 0 <= i <= |sources|
      invariant target.props == Merged(old(target.props), sources[..i])
    {
      assert sources[..i + 1][..i] == sources[..i];
      CopyOwn(target, sources[i]);
      i := i + 1;
    }
    assert sources[..|sources|] == sources;
    return target;
  }

  // ---------------------------------------------------------------------------
  // Properties

  /** A key's final value comes from the last source that has it. */
  lemma {:induction false} LastWriterWins(props: map<string, Value>, sources: seq<Value>, j: nat, k: string)
    requires j < |sources| && k in Spread(sources[j])
    requires forall i :: j < i < |sources| ==> k !in Spread(sources[i])
    ensures k in Merged(props, sources) && Merged(props, sources)[k] == Spread(sources[j])[k]
  {
    var init := sources[..|sources| - 1];
    if j < |sources| - 1 {
      forall i | j < i < |init| ensures k !in Spread(init[i]) {
        assert init[i] == sources[i];
      }
      assert init[j] == sources[j];
      LastWriterWins(props, init, j, k);
    }
  }

  /** A key that no source has keeps the target's value, or stays absent. */
  lemma {:induction false} Untouched(props: map<string, Value>, sources: seq<Value>, k: string)
    requires forall i :: 0 <= i < |sources| ==> k !in Spread(sources[i])
    ensures k in Merged(props, sources) <==> k in props
    ensures k in props ==> Merged(props, sources)[k] == props[k]
  {
    if sources != [] {
      var init := sources[..|sources| - 1];
      assert forall i :: 0 <= i < |init| ==> init[i] == sources[i];
      Untouched(props, init, k);
    }
  }

  /** The result's keys are the target's keys and every source's own keys. */
  lemma {:induction false} KeyUnion(props: map<string, Value>, sources: seq<Value>, k: string)
    ensures k in Merged(props, sources) <==> k in props || exists i :: 0 <= i < |sources| && k in Spread(sources[i])
  {
    if sources != [] {
      var init := sources[..|sources| - 1];
      KeyUnion(props, init, k);
      if exists i :: 0 <= i < |sources| && k in Spread(sources[i]) {
        var i :| 0 <= i < |sources| && k in Spread(sources[i]);
        if i < |init| {
          assert init[i] == sources[i];
        }
      }
      if exists i :: 0 <= i < |init| && k in Spread(init[i]) {
        var i :| 0 <= i < |init| && k in Spread(init[i]);
        assert init[i] == sources[i];
      }
    }
  }

  /** A source that is null, undefined, a number or a boolean contributes nothing. */
  lemma NoOwnKeys(props: map<string, Value>, sources: seq<Value>, p: Prim)
    requires !p.Str?
    ensures Merged(props, sources + [Prim(p)]) == Merged(props, sources)
  {
    assert (sources + [Prim(p)])[..|sources|] == sources;
    assert Merged(props, sources) + map[] == Merged(props, sources);
  }

  /** A string source contributes one key per character: key `"i"` holds its
      `i`-th character, and there are no other keys. */
  lemma StringSource(s: string)
    ensures forall i :: 0 <= i < |s| ==> NatDigits(i) in Spread(Prim(Str(s))) && Spread(Prim(Str(s)))[NatDigits(i)] == Prim(Str([s[i]]))
    ensures forall k :: k in Spread(Prim(Str(s))) ==> exists i :: 0 <= i < |s| && k == NatDigits(i)
  {
    var cs := seq(|s|, i requires 0 <= i < |s| => Prim(Str([s[i]])));
    forall i | 0 <= i < |s|
      ensures NatDigits(i) in Spread(Prim(Str(s))) && Spread(Prim(Str(s)))[NatDigits(i)] == Prim(Str([s[i]]))
    {
      IndexFieldsHold(cs, |s|, i);
    }
    forall k | k in Spread(Prim(Str(s))) ensures exists i :: 0 <= i < |s| && k == NatDigits(i) {
      IndexFieldsKeys(cs, |s|, k);
    }
  }
}
