/** The decoded JSON values the server and the browser exchange. */
module Json {
  import opened Wrappers

  /** A JSON value as the Python decoder hands it over: integer literals
      become `int`, literals with a fraction or exponent become `float`
      (modelled here by its exact value), objects keep their members in
      text order. */
  datatype Value =
    | JNull
    | JBool(b: bool)
    | JInt(i: int)
    | JFloat(x: real)
    | JStr(s: string)
    | JArr(items: seq<Value>)
    | JObj(fields: seq<(string, Value)>)

  /** `obj.get(key)` on a decoded object: when a key is repeated, the decoder
      keeps the last occurrence. */
  function Get(fields: seq<(string, Value)>, key: string): (r: Option<Value>)
    ensures r.None? <==> forall i :: 0 <= i < |fields| ==> fields[i].0 != key
    ensures r.Some? ==> exists i :: 0 <= i < |fields| && fields[i].0 == key && fields[i].1 == r.value
                                    && forall k :: i < k < |fields| ==> fields[k].0 != key
  {
    if |fields| == 0 then None
    else if fields[|fields| - 1].0 == key then Some(fields[|fields| - 1].1)
    else Get(fields[..|fields| - 1], key)
  }
}
