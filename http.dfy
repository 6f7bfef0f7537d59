/**
 * What the Flask services send back: a status code and a JSON body.
 */
module Http {
  import opened Wrappers

  datatype Json =
    | JNull
    | JBool(b: bool)
    | JInt(i: int)
    | JStr(s: string)
    | JList(items: seq<Json>)
    | JObject(fields: map<string, Json>)

  datatype Response = Response(code: int, body: Json)

  /** Flask's answer to an exception a route or service does not catch (an HTML error
      page, not JSON). */
  const ServerError: Response := Response(500, JNull)

  /** The `{"msg": text}` body the services use for errors and acknowledgements. */
  function Msg(text: string): Json {
    JObject(map["msg" := JStr(text)])
  }

  /** The `{"message": text}` body the services of the `auth` package use. */
  function Message(text: string): Json {
    JObject(map["message" := JStr(text)])
  }

  /** `bool(x)` of a text field read with `dict.get`: absent or empty text is falsy. */
  predicate Present(v: Option<string>) {
    v.Some? && v.value != ""
  }
}
