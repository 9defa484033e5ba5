/** The pieces of request validation the schemas share: Python truthiness of
    a raw request value, `values.get(key) is None`, and the checks a
    declared `str` or `constr(min_length, max_length)` field applies to the
    raw value it is given. */
module Validation {
  import opened Common
  import opened ConvertToJson

  /** `bool(v)` in Python. */
  predicate Truthy(v: Value)
  {
    match v
    case Null => false
    case Bool(b) => b
    case Int(i) => i != 0
    case Str(s) => s != ""
    case List(items) => items != []
    case Dict(fields) => fields != []
    case ObjectId(_) => true
    case DateTime(_) => true
  }

  /** `any(values.values())`. */
  predicate AnyTruthy(values: map<string, Value>)
  {
    exists k :: k in values && Truthy(values[k])
  }

  /** `values.get(key) is None`: missing, or present as null. */
  predicate IsNone(values: map<string, Value>, key: string)
  {
    key !in values || values[key] == Null
  }

  /** A bound on a text field: plain `str`, or `constr` with a length range. */
  datatype Constraint = Unbounded | Length(min: nat, max: nat)

  predicate Satisfies(s: string, c: Constraint)
  {
    c.Unbounded? || c.min <= |s| <= c.max
  }

  datatype Error =
    | NoFieldProvided
    | PasswordPairIncomplete
    | Missing(field: string)
    | Invalid(field: string)

  /** A required text field: missing is an error, so is anything that is not
      a string (null included) or a string out of bounds. */
  function RequiredText(values: map<string, Value>, key: string, c: Constraint): (r: Result<string, Error>)
    ensures r.Ok? <==> key in values && values[key].Str? && Satisfies(values[key].s, c)
    ensures r.Ok? ==> values[key] == Str(r.value)
    ensures r.Err? ==> r.error == (if key in values then Invalid(key) else Missing(key))
  {
    if key !in values then Err(Missing(key))
    else match values[key]
      case Str(s) => if Satisfies(s, c) then Ok(s) else Err(Invalid(key))
      case _ => Err(Invalid(key))
  }

  /** An `Optional[...] = None` text field: absent or null gives None. */
  function OptionalText(values: map<string, Value>, key: string, c: Constraint): (r: Result<Option<string>, Error>)
    ensures r == Ok(None) <==> IsNone(values, key)
    ensures r.Ok? && r.value.Some? <==> key in values && values[key].Str? && Satisfies(values[key].s, c)
    ensures r.Ok? && r.value.Some? ==> values[key] == Str(r.value.value)
    ensures r.Err? ==> r.error == Invalid(key)
  {
    if IsNone(values, key) then Ok(None)
    else match values[key]
      case Str(s) => if Satisfies(s, c) then Ok(Some(s)) else Err(Invalid(key))
      case _ => Err(Invalid(key))
  }

  /** The values an `Optional` text field accepts: absent, null, or a
      string within its bounds. */
  predicate OptionalTextOk(values: map<string, Value>, key: string, c: Constraint)
  {
    IsNone(values, key) || (values[key].Str? && Satisfies(values[key].s, c))
  }

  predicate AllText(items: seq<Value>)
  {
    forall i :: 0 <= i < |items| ==> items[i].Str?
  }

  function Texts(items: seq<Value>): (r: seq<string>)
    requires AllText(items)
    ensures |r| == |items|
    ensures forall i :: 0 <= i < |items| ==> items[i] == Str(r[i])
  {
    seq(|items|, i requires 0 <= i < |items| => items[i].s)
  }

  /** A `List[str]` field that must be present. */
  function RequiredTextList(values: map<string, Value>, key: string): (r: Result<seq<string>, Error>)
    ensures r.Ok? <==> key in values && values[key].List? && AllText(values[key].items)
    ensures r.Ok? ==> r.value == Texts(values[key].items)
  {
    if key !in values then Err(Missing(key))
    else match values[key]
      case List(items) => if AllText(items) then Ok(Texts(items)) else Err(Invalid(key))
      case _ => Err(Invalid(key))
  }

  /** An `Optional[List[str]] = None` field. */
  function OptionalTextList(values: map<string, Value>, key: string): (r: Result<Option<seq<string>>, Error>)
    ensures r == Ok(None) <==> IsNone(values, key)
    ensures r.Ok? && r.value.Some? <==> key in values && values[key].List? && AllText(values[key].items)
    ensures r.Ok? && r.value.Some? ==> r.value.value == Texts(values[key].items)
  {
    if IsNone(values, key) then Ok(None)
    else match values[key]
      case List(items) => if AllText(items) then Ok(Some(Texts(items))) else Err(Invalid(key))
      case _ => Err(Invalid(key))
  }
}
