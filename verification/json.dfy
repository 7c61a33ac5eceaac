/**
 * The JSON document the resolver walks. The three backends (serde_json's
 * Value, simd_json's borrowed Value and simd_json's OwnedValue) all have
 * the same shape: scalars, arrays and objects keyed by strings.
 */
module JsonValue {

  datatype Json =
    | Null
    | Bool(b: bool)
    | Num(n: int)      // number payloads are abstracted to integers
    | Str(s: string)
    | Arr(items: seq<Json>)
    | Obj(fields: map<string, Json>)
  {
    /** Neither an array nor an object: a pointer cannot step into it. */
    predicate IsScalar() {
      !Arr? && !Obj?
    }
  }
}
