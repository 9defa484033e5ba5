/** Small shared vocabulary: optional values, results, and the handful of
    Python values whose equality the handlers rely on. */
module Common {

  datatype Option<T> = None | Some(value: T)

  datatype Result<T, E> = Ok(value: T) | Err(error: E)

  /** Identifiers are strings (ObjectId hex strings, uuid4 strings, six-character ids). */
  type Id = string

  /** Timestamps are opaque client- or clock-supplied texts; nothing here compares them. */
  type Timestamp = string

  /** The dynamic type of a Python operand where the source compares values of
      different types: a `str`, a bson `ObjectId`, or a WebSocket object.
      Datatype equality is Python's `==` on these: values of different types are
      never equal, whatever text they carry. */
  datatype PyValue = PyStr(s: string) | PyObjectId(hex: string) | PyWebSocket(handle: nat)

  /** Python truthiness of an optional string: None and "" are falsy. */
  predicate TruthyText(o: Option<string>)
  {
    o.Some? && o.value != ""
  }

  /** `x if x else None` for an optional string. */
  function NoneIfFalsy(o: Option<string>): (r: Option<string>)
    ensures r.Some? <==> TruthyText(o)
    ensures r.Some? ==> r == o
  {
    if TruthyText(o) then o else None
  }
}
