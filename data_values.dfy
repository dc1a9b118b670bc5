/**
 * Plain JavaScript data as the tree, list, object and type utilities see it:
 * a value is a primitive, an array, a record of own enumerable string-keyed
 * properties, or a function object.  These values have no identity; the
 * utilities that use them only read their input or build fresh output.
 */
module JsData {
  import opened JsValues

  datatype Value = Prim(p: Prim) | Arr(items: seq<Value>) | Rec(fields: map<string, Value>) | Func

  /** A callback option as the caller passes it: left out (`undefined`, so the
      default applies), a function (pure and total here), or some other value. */
  datatype Callback<T> = Missing | Fn(call: Value -> T) | NotFn(given: Value)

  const Undef: Value := Prim(Undefined)

  /** What the host throws when a property of null or undefined is read. */
  const NilRead: JsError := TypeError("Cannot read properties of null or undefined")

  /** `value === null || value === undefined`. */
  predicate IsNil(v: Value)
  {
    v == Prim(Undefined) || v == Prim(Null)
  }

  /** `Boolean(v)`: every object is truthy. */
  predicate TruthyValue(v: Value)
  {
    if v.Prim? then Truthy(v.p) else true
  }

  /** `v[k]` on a value that is not null or undefined: a record's own property,
      an array's or string's `length` and index properties, and `undefined`
      for everything else. */
  function Field(v: Value, k: string): Value
  {
    match v
    case Rec(fs) => if k in fs then fs[k] else Undef
    case Arr(items) =>
      if k == "length" then Prim(Num(|items|))
      else if IsArrayIndex(k) && ParseDigits(k) < |items| then items[ParseDigits(k)]
      else Undef
    case Prim(p) =>
      if p.Str? && k == "length" then Prim(Num(|p.s|))
      else if p.Str? && IsArrayIndex(k) && ParseDigits(k) < |p.s| then Prim(Str([p.s[ParseDigits(k)]]))
      else Undef
    case Func => Undef
  }

  /** The record `{ "0": xs[0], ..., "n-1": xs[n-1] }` of the first `n` values. */
  function IndexFields(xs: seq<Value>, n: nat): map<string, Value>
    requires n <= |xs|
  {
    if n == 0 then map[] else IndexFields(xs, n - 1)[NatDigits(n - 1) := xs[n - 1]]
  }

  /** Each decimal numeral below `n` is a key of `IndexFields(xs, n)` holding its element. */
  lemma {:induction false} IndexFieldsHold(xs: seq<Value>, n: nat, i: nat)
    requires i < n <= |xs|
    ensures NatDigits(i) in IndexFields(xs, n) && IndexFields(xs, n)[NatDigits(i)] == xs[i]
  {
    if i < n - 1 {
      IndexFieldsHold(xs, n - 1, i);
      NumeralsDiffer(i, n - 1);
    }
  }

  lemma NumeralsDiffer(a: nat, b: nat)
    requires a != b
    ensures NatDigits(a) != NatDigits(b)
  {
    ParseNatDigits(a);
    ParseNatDigits(b);
  }

  /** Every key of `IndexFields(xs, n)` is a decimal numeral below `n`. */
  lemma {:induction false} IndexFieldsKeys(xs: seq<Value>, n: nat, k: string)
    requires n <= |xs| && k in IndexFields(xs, n)
    ensures exists i :: 0 <= i < n && k == NatDigits(i)
  {
    if k != NatDigits(n - 1) {
      IndexFieldsKeys(xs, n - 1, k);
    }
  }

  /** `{ ...v }`: the own enumerable properties of `v` copied into a fresh record. */
  function Spread(v: Value): map<string, Value>
  {
    match v
    case Rec(fs) => fs
    case Arr(items) => IndexFields(items, |items|)
    case Prim(p) =>
      if p.Str? then IndexFields(seq(|p.s|, i requires 0 <= i < |p.s| => Prim(Str([p.s[i]]))), |p.s|) else map[]
    case Func => map[]
  }

  /** `v[i]` for `i` from 0 below `v.length`, for a `length` that is a positive
      integer; no elements otherwise (a `length` of another type is not coerced). */
  function Elements(v: Value): seq<Value>
  {
    match v
    case Arr(items) => items
    case Prim(p) => if p.Str? then seq(|p.s|, i requires 0 <= i < |p.s| => Prim(Str([p.s[i]]))) else []
    case Rec(fs) =>
      if "length" in fs && fs["length"].Prim? && fs["length"].p.Num? && fs["length"].p.n > 0
      then seq(fs["length"].p.n, i requires 0 <= i => Field(v, NatDigits(i)))
      else []
    case Func => []
  }

  /** A value whose property-key form the model knows: a primitive or a record
      (an array's key is its comma-joined elements and a function's is its source). */
  predicate Keyable(v: Value)
  {
    v.Prim? || v.Rec?
  }

  /** `obj[v]` stores and reads under this key. */
  function KeyOf(v: Value): Key
    requires Keyable(v)
  {
    if v.Prim? then ToPropertyKey(v.p) else Name("[object Object]")
  }

  // ---------------------------------------------------------------------------
  // What the traversals terminate by

  /** An element of a child list read from an array or record is a primitive or
      a part of it. */
  lemma ChildBelow(v: Value, k: string, i: nat)
    requires v.Arr? || v.Rec?
    requires i < |Elements(Field(v, k))|
    ensures Elements(Field(v, k))[i].Prim? || Elements(Field(v, k))[i] < v
  {
    var f := Field(v, k);
    if f.Rec? {
      assert Elements(f)[i] == Field(f, NatDigits(i));
    }
  }

  /** An array or record read as a property of `v` is a part of `v`. */
  lemma FieldBelow(v: Value, k: string)
    ensures Field(v, k).Arr? || Field(v, k).Rec? ==> Field(v, k) < v
  {
  }

  /** A primitive or a function has no child list under a key that is not an index. */
  lemma NoChildren(v: Value, k: string)
    requires !v.Arr? && !v.Rec? && !IsArrayIndex(k)
    ensures Elements(Field(v, k)) == []
  {
  }
}
