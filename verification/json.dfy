/** The shape of the JSON documents the ledger hashes and signs. Which fields
    an object has, and in which order, is modelled; the exact bytes
    `encoding/json` produces for a document are not (see `Crypto.Primitives`). */
module Json {

  datatype JsonValue =
    | JNumber(n: real)
    | JString(s: string)
    | JArray(items: seq<JsonValue>)
    | JObject(members: seq<(string, JsonValue)>)

  /** The member names of an object, in order; none for other values. */
  function Keys(v: JsonValue): seq<string> {
    if v.JObject? then seq(|v.members|, i requires 0 <= i < |v.members| => v.members[i].0) else []
  }
}
