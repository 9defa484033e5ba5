/** The recursive conversion of a MongoDB document into a value the JSON
    encoder accepts (helpers/utils/convert_to_json_serializeble_object.py). */
module ConvertToJson {

  /** A document value as the driver hands it over. Dicts keep their
      insertion order, as Python dicts do. A datetime carries the text its
      `isoformat()` produces; the formatting itself is not modelled. */
  datatype Value =
    | Null
    | Bool(b: bool)
    | Int(i: int)
    | Str(s: string)
    | List(items: seq<Value>)
    | Dict(fields: seq<Field>)
    | ObjectId(hex: string)
    | DateTime(iso: string)

  datatype Field = Field(key: string, value: Value)

  function Keys(fields: seq<Field>): (ks: seq<string>)
    ensures |ks| == |fields|
    ensures forall i :: 0 <= i < |fields| ==> ks[i] == fields[i].key
  {
    seq(|fields|, i requires 0 <= i < |fields| => fields[i].key)
  }

  /** No ObjectId and no datetime at any depth: what `json.dumps` accepts. */
  predicate JsonSafe(v: Value)
  {
    match v
    case ObjectId(_) => false
    case DateTime(_) => false
    case List(items) => forall i :: 0 <= i < |items| ==> JsonSafe(items[i])
    case Dict(fields) => forall i :: 0 <= i < |fields| ==> JsonSafe(fields[i].value)
    case _ => true
  }

  /** convert_to_json_serializeble_object: dicts key by key, lists element by
      element, ObjectId to its hex string, datetime to its ISO text, anything
      else unchanged. */
  function Convert(v: Value): (r: Value)
    ensures JsonSafe(r)
    ensures v.Dict? ==> r.Dict? && Keys(r.fields) == Keys(v.fields)
    ensures v.List? ==> r.List? && |r.items| == |v.items|
    ensures v.ObjectId? ==> r == Str(v.hex)
    ensures v.DateTime? ==> r == Str(v.iso)
    ensures !(v.Dict? || v.List? || v.ObjectId? || v.DateTime?) ==> r == v
  {
    match v
    case Dict(fields) =>
      Dict(seq(|fields|, i requires 0 <= i < |fields| => Field(fields[i].key, Convert(fields[i].value))))
    case List(items) =>
      List(seq(|items|, i requires 0 <= i < |items| => Convert(items[i])))
    case ObjectId(hex) => Str(hex)
    case DateTime(iso) => Str(iso)
    case _ => v
  }

  /** Each list element and each dict value is converted in place, in order. */
  lemma ConvertElementwise(v: Value)
    ensures v.List? ==> forall i :: 0 <= i < |v.items| ==> Convert(v).items[i] == Convert(v.items[i])
    ensures v.Dict? ==> forall i :: 0 <= i < |v.fields| ==>
      Convert(v).fields[i] == Field(v.fields[i].key, Convert(v.fields[i].value))
  {
  }

  /** A value that is already safe is left exactly as it is. */
  lemma {:induction false} ConvertFixesJsonSafe(v: Value)
    requires JsonSafe(v)
    ensures Convert(v) == v
    decreases v
  {
    match v
    case List(items) =>
      forall i | 0 <= i < |items| ensures Convert(items[i]) == items[i] {
        ConvertFixesJsonSafe(items[i]);
      }
      assert Convert(v).items == items;
    case Dict(fields) =>
      forall i | 0 <= i < |fields|
        ensures Field(fields[i].key, Convert(fields[i].value)) == fields[i]
      {
        ConvertFixesJsonSafe(fields[i].value);
      }
      assert Convert(v).fields == fields;
    case _ =>
  }

  /** Converting twice is converting once. */
  lemma ConvertIdempotent(v: Value)
    ensures Convert(Convert(v)) == Convert(v)
  {
    ConvertFixesJsonSafe(Convert(v));
  }
}
