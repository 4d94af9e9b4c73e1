/** Values shared by the WebID table, the registrar, the enricher and the HTTP handlers. */
module Common {

  datatype Option<+T> = None | Some(value: T)

  /** A reading of the server clock (`datetime.datetime.now()`); the model only compares readings. */
  type Timestamp = int

  /** One binding of a SPARQL JSON result row, `{"type": tag, "value": value}`. */
  datatype TypeValuePair = TypeValuePair(tag: string, value: string)

  /** The tag the enricher puts on the `webID` field it adds. */
  const LiteralTag: string := "literal"

  /** A result row of the election dataset: field name to tagged value. */
  type Row = map<string, TypeValuePair>

  /** The Python values the handlers place in response bodies. */
  datatype Value =
    | Bool(b: bool)
    | Int(i: int)
    | Str(s: string)
    | Time(t: Timestamp)
    | List(items: seq<Value>)
    | Dict(fields: map<string, Value>)

  function PairValue(p: TypeValuePair): Value {
    Dict(map["type" := Str(p.tag), "value" := Str(p.value)])
  }

  function RowValue(r: Row): Value {
    Dict(map k | k in r :: PairValue(r[k]))
  }

  /** The rows as the JSON list a handler sends: one dict per row, in order. */
  function RowsValue(rows: seq<Row>): (v: Value)
    ensures v.List? && |v.items| == |rows|
    ensures forall i :: 0 <= i < |rows| ==> v.items[i] == RowValue(rows[i])
  {
    List(seq(|rows|, i requires 0 <= i < |rows| => RowValue(rows[i])))
  }

  /**
   * An HTTP response: `response.json(body, status)`, or the 500 page the web
   * framework answers with when a handler raises an exception it does not catch.
   */
  datatype Response =
    | JsonResponse(status: nat, body: map<string, Value>)
    | InternalServerError
}
