/**
  The shape of a JSON document once its text has been parsed. Turning text
  into this tree is the job of the JSON library and is not modelled: the
  selector receives either such a tree or the fact that the text was not
  JSON at all.
 */
module Json {

  /** A parsed JSON value. Numbers keep their literal text, since nothing in
      the catalog decoder reads them. An object is a map from member names to
      values. */
  datatype Value =
    | Null
    | Bool(b: bool)
    | Number(literal: string)
    | Str(s: string)
    | Array(items: seq<Value>)
    | Object(members: map<string, Value>)

  /** Outcome of the (foreign) text parser on the response body. */
  datatype Parsed = Parsed(value: Value) | Malformed
}
