/** The `json.dumps` / `json.loads` pair that carries a published dict over a
    pub/sub channel, modelled as a prefix token encoding with its parser.
    Only the round trip matters to the system, and that is what is proved. */
module JsonWire {
  import opened Common
  import opened ConvertToJson

  /** A container token announces how many children follow it. */
  datatype Token =
    | TNull
    | TBool(b: bool)
    | TInt(i: int)
    | TStr(s: string)
    | TList(count: nat)
    | TDict(count: nat)
    | TKey(key: string)

  /** `json.dumps`: defined on the values the encoder accepts. */
  function Encode(v: Value): seq<Token>
    requires JsonSafe(v)
    decreases v, 0
  {
    match v
    case Null => [TNull]
    case Bool(b) => [TBool(b)]
    case Int(i) => [TInt(i)]
    case Str(s) => [TStr(s)]
    case List(items) => [TList(|items|)] + EncodeItems(items)
    case Dict(fields) => [TDict(|fields|)] + EncodeFields(fields)
  }

  function EncodeItems(items: seq<Value>): seq<Token>
    requires forall i :: 0 <= i < |items| ==> JsonSafe(items[i])
    decreases items
  {
    if items == [] then [] else Encode(items[0]) + EncodeItems(items[1..])
  }

  function EncodeFields(fields: seq<Field>): seq<Token>
    requires forall i :: 0 <= i < |fields| ==> JsonSafe(fields[i].value)
    decreases fields
  {
    if fields == [] then []
    else [TKey(fields[0].key)] + Encode(fields[0].value) + EncodeFields(fields[1..])
  }

  /** What a parser returns: the value read and the tokens after it. */
  datatype Parsed<T> = Parsed(value: T, rest: seq<Token>)

  /** `json.loads` on a token stream: one value and the tokens after it. */
  function Decode(ts: seq<Token>): (r: Option<Parsed<Value>>)
    ensures r.Some? ==> |r.value.rest| < |ts|
    decreases |ts|, 0
  {
    if ts == [] then None
    else match ts[0]
      case TNull => Some(Parsed(Null, ts[1..]))
      case TBool(b) => Some(Parsed(Bool(b), ts[1..]))
      case TInt(i) => Some(Parsed(Int(i), ts[1..]))
      case TStr(s) => Some(Parsed(Str(s), ts[1..]))
      case TList(n) =>
        var items := DecodeItems(n, ts[1..]);
        if items.None? then None else Some(Parsed(List(items.value.value), items.value.rest))
      case TDict(n) =>
        var fields := DecodeFields(n, ts[1..]);
        if fields.None? then None else Some(Parsed(Dict(fields.value.value), fields.value.rest))
      case TKey(_) => None
  }

  function DecodeItems(n: nat, ts: seq<Token>): (r: Option<Parsed<seq<Value>>>)
    ensures r.Some? ==> |r.value.rest| <= |ts| && |r.value.value| == n
    decreases |ts|, n
  {
    if n == 0 then Some(Parsed([], ts))
    else
      var head := Decode(ts);
      if head.None? then None
      else
        var tail := DecodeItems(n - 1, head.value.rest);
        if tail.None? then None
        else Some(Parsed([head.value.value] + tail.value.value, tail.value.rest))
  }

  function DecodeFields(n: nat, ts: seq<Token>): (r: Option<Parsed<seq<Field>>>)
    ensures r.Some? ==> |r.value.rest| <= |ts| && |r.value.value| == n
    decreases |ts|, n
  {
    if n == 0 then Some(Parsed([], ts))
    else if ts == [] || !ts[0].TKey? then None
    else
      var head := Decode(ts[1..]);
      if head.None? then None
      else
        var tail := DecodeFields(n - 1, head.value.rest);
        if tail.None? then None
        else Some(Parsed([Field(ts[0].key, head.value.value)] + tail.value.value, tail.value.rest))
  }

  /** Decoding an encoding gives back the value and leaves whatever followed. */
  lemma {:induction false} DecodeEncode(v: Value, rest: seq<Token>)
    requires JsonSafe(v)
    ensures Decode(Encode(v) + rest) == Some(Parsed(v, rest))
    decreases v, 0
  {
    var ts := Encode(v) + rest;
    match v
    case List(items) =>
      assert ts == [TList(|items|)] + (EncodeItems(items) + rest);
      assert ts[1..] == EncodeItems(items) + rest;
      DecodeEncodeItems(items, rest);
    case Dict(fields) =>
      assert ts == [TDict(|fields|)] + (EncodeFields(fields) + rest);
      assert ts[1..] == EncodeFields(fields) + rest;
      DecodeEncodeFields(fields, rest);
    case Null =>
      assert ts[1..] == rest;
    case Bool(_) =>
      assert ts[1..] == rest;
    case Int(_) =>
      assert ts[1..] == rest;
    case Str(_) =>
      assert ts[1..] == rest;
  }

  lemma {:induction false} DecodeEncodeItems(items: seq<Value>, rest: seq<Token>)
    requires forall i :: 0 <= i < |items| ==> JsonSafe(items[i])
    ensures DecodeItems(|items|, EncodeItems(items) + rest) == Some(Parsed(items, rest))
    decreases items
  {
    if items != [] {
      var tail := EncodeItems(items[1..]) + rest;
      var ts := EncodeItems(items) + rest;
      assert ts == Encode(items[0]) + tail;
      DecodeEncode(items[0], tail);
      assert Decode(ts) == Some(Parsed(items[0], tail));
      DecodeEncodeItems(items[1..], rest);
      assert DecodeItems(|items| - 1, tail) == Some(Parsed(items[1..], rest));
      assert [items[0]] + items[1..] == items;
    } else {
      assert EncodeItems(items) + rest == rest;
    }
  }

  lemma {:induction false} DecodeEncodeFields(fields: seq<Field>, rest: seq<Token>)
    requires forall i :: 0 <= i < |fields| ==> JsonSafe(fields[i].value)
    ensures DecodeFields(|fields|, EncodeFields(fields) + rest) == Some(Parsed(fields, rest))
    decreases fields
  {
    if fields != [] {
      var tail := EncodeFields(fields[1..]) + rest;
      var ts := EncodeFields(fields) + rest;
      assert ts == [TKey(fields[0].key)] + (Encode(fields[0].value) + tail);
      assert ts[0] == TKey(fields[0].key);
      assert ts[1..] == Encode(fields[0].value) + tail;
      DecodeEncode(fields[0].value, tail);
      assert Decode(ts[1..]) == Some(Parsed(fields[0].value, tail));
      DecodeEncodeFields(fields[1..], rest);
      assert DecodeFields(|fields| - 1, tail) == Some(Parsed(fields[1..], rest));
      assert [Field(fields[0].key, fields[0].value)] + fields[1..] == fields;
    } else {
      assert EncodeFields(fields) + rest == rest;
    }
  }

  /** decode after encode is the identity on what the encoder accepts. */
  lemma RoundTrip(v: Value)
    requires JsonSafe(v)
    ensures Decode(Encode(v)) == Some(Parsed(v, []))
  {
    DecodeEncode(v, []);
    assert Encode(v) + [] == Encode(v);
  }
}
