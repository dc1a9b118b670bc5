/**
 * The type predicates of `type.ts`: the `typeof` tests, `Array.isArray`,
 * `isNil`, `isEmpty` and `isInvalid`, over plain JavaScript values.
 */
module Types {
  import opened JsValues
  import opened JsData

  /** The `typeof` operator (section 13.5.3 of ECMA-262): `null` and every
      non-callable object are "object". */
  function TypeOf(v: Value): (t: string)
    ensures t == "object" <==> v == Prim(Null) || v.Arr? || v.Rec?
  {
    match v
    case Func => "function"
    case Arr(_) => "object"
    case Rec(_) => "object"
    case Prim(p) =>
      match p
      case Undefined => "undefined"
      case Null => "object"
      case Bool(_) => "boolean"
      case Num(_) => "number"
      case NaN => "number"
      case Str(_) => "string"
      case BigInt(_) => "bigint"
      case Symbol(_) => "symbol"
  }

  function IsString(v: Value): (r: bool)
    ensures r <==> v.Prim? && v.p.Str?
  {
    TypeOf(v) == "string"
  }

  /** NaN is of type "number" too. */
  function IsNumber(v: Value): (r: bool)
    ensures r <==> v == Prim(NaN) || (v.Prim? && v.p.Num?)
  {
    TypeOf(v) == "number"
  }

  function IsBoolean(v: Value): (r: bool)
    ensures r <==> v == Prim(Bool(true)) || v == Prim(Bool(false))
  {
    TypeOf(v) == "boolean"
  }

  /** `Array.isArray`: records with a `length` are not arrays. */
  function IsArray(v: Value): (r: bool)
    ensures r <==> v.Arr?
    ensures r ==> TypeOf(v) == "object"
  {
    v.Arr?
  }

  function IsFunction(v: Value): (r: bool)
    ensures r <==> v == Func
  {
    TypeOf(v) == "function"
  }

  /** `value === void 0`. */
  function IsUndefined(v: Value): (r: bool)
    ensures r <==> TypeOf(v) == "undefined"
  {
    v.Prim? && StrictEquals(v.p, Undefined)
  }

  /** `value === null`: the one primitive whose type is "object". */
  function IsNull(v: Value): (r: bool)
    ensures r <==> v.Prim? && TypeOf(v) == "object"
  {
    v.Prim? && StrictEquals(v.p, Null)
  }

  function IsSymbol(v: Value): (r: bool)
    ensures r <==> v.Prim? && v.p.Symbol?
  {
    TypeOf(v) == "symbol"
  }

  function IsBigInt(v: Value): (r: bool)
    ensures r <==> v.Prim? && v.p.BigInt?
  {
    TypeOf(v) == "bigint"
  }

  /** `value === null || value === void 0`. */
  function IsNilValue(v: Value): (r: bool)
    ensures r <==> IsNil(v)
    ensures r <==> IsNull(v) || IsUndefined(v)
  {
    v.Prim? && (StrictEquals(v.p, Null) || StrictEquals(v.p, Undefined))
  }

  /** `isEmpty`: nil, a string of white space only, an empty array, or an
      object without own enumerable string keys; nothing else is empty. */
  function IsEmpty(v: Value): (r: bool)
    ensures IsNil(v) ==> r
    ensures v.Prim? && v.p.Str? ==> (r <==> AllWhitespace(v.p.s))
    ensures v.Arr? ==> (r <==> v.items == [])
    ensures v.Rec? ==> (r <==> v.fields == map[])
    ensures r ==> IsNil(v) || IsString(v) || v.Arr? || v.Rec?
  {
    if IsNilValue(v) then true
    else if IsString(v) then
      TrimEmptyIff(v.p.s);
      Trim(v.p.s) == ""
    else if IsArray(v) then |v.items| == 0
    else if TypeOf(v) == "object" then |v.fields.Keys| == 0
    else false
  }

  /** `Number.isNaN`: true only for the number NaN, with no coercion. */
  function IsNaNValue(v: Value): (r: bool)
    ensures r <==> IsNumber(v) && !(v.Prim? && v.p.Num?)
  {
    v == Prim(NaN)
  }

  /** `isInvalid`: nil or the number NaN. */
  function IsInvalid(v: Value): (r: bool)
    ensures r <==> v == Prim(Undefined) || v == Prim(Null) || v == Prim(NaN)
  {
    IsNilValue(v) || IsNaNValue(v)
  }

  /** Every value has exactly one `typeof` answer among the predicates, or
      is an object. */
  lemma OneTypeOf(v: Value)
    ensures var answers := [IsString(v), IsNumber(v), IsBoolean(v), IsFunction(v),
                            IsUndefined(v), IsSymbol(v), IsBigInt(v), TypeOf(v) == "object"];
      forall i, j :: 0 <= i < j < |answers| ==> !(answers[i] && answers[j])
    ensures IsString(v) || IsNumber(v) || IsBoolean(v) || IsFunction(v)
         || IsUndefined(v) || IsSymbol(v) || IsBigInt(v) || TypeOf(v) == "object"
  {
  }

  /** An invalid value is falsy, but not every falsy value is invalid
      (0 and '' are not). */
  lemma InvalidIsFalsy(v: Value)
    ensures IsInvalid(v) ==> !TruthyValue(v)
    ensures !IsInvalid(Prim(Num(0))) && !IsInvalid(Prim(Str("")))
  {
  }

  /** The test table of `isEmpty`: what is empty. */
  lemma EmptyExamples()
    ensures IsEmpty(Prim(Null)) && IsEmpty(Prim(Undefined)) && IsEmpty(Prim(Str("")))
    ensures IsEmpty(Arr([])) && IsEmpty(Rec(map[]))
  {
  }

  /** The test table of `isEmpty`: what is not. */
  lemma NonEmptyString()
    ensures !IsEmpty(Prim(Str("hello")))
  {
    assert !IsWhitespace("hello"[0]);
  }

  lemma NonEmptyArray()
    ensures !IsEmpty(Arr([Prim(Num(1)), Prim(Num(2)), Prim(Num(3))]))
  {
  }

  lemma NonEmptyRecord()
    ensures !IsEmpty(Rec(map["key" := Prim(Str("value"))]))
  {
    assert "key" in map["key" := Prim(Str("value"))];
  }
}
