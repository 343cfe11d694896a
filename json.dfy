/** Values produced by parsing a schema file, and the exceptions the loader can
    meet while handling one file. The JSON text itself is not modelled: a file's
    contents reach the model already parsed (or as the failure that parsing or
    reading it raised). */
module Json {

  /** A parsed JSON document. Numbers are kept as integers: no number ever
      takes part in a decision of the loader. */
  datatype Value =
    | JNull
    | JBool(b: bool)
    | JNumber(n: int)
    | JString(s: string)
    | JArray(items: seq<Value>)
    | JObject(members: map<string, Value>)

  /** Python can put a parsed value into a set only if it is not a list or a dict. */
  predicate Hashable(v: Value) {
    !v.JArray? && !v.JObject?
  }

  /** The Python exceptions that can end the handling of one schema file. */
  datatype Failure =
    | ValueError(message: string)  // also json.loads' decode error, a subclass of it
    | TypeError                    // subscripting or testing a value of the wrong kind
    | KeyError(key: string)        // a field record without the looked-up key
    | ReadError                    // the file could not be opened or decoded as UTF-8
    | HTTPError(status: int)       // raised by raise_for_status on a 4xx or 5xx reply

  datatype Result<T> = Ok(value: T) | Err(error: Failure)

  /** Python's `needle in s` for two strings: `needle` occurs in `s` as a substring. */
  predicate ContainsSubstring(s: string, needle: string) {
    exists i :: 0 <= i <= |s| - |needle| && OccursAt(s, needle, i)
  }

  predicate OccursAt(s: string, needle: string, i: int)
    requires 0 <= i <= |s| - |needle|
  {
    s[i..i + |needle|] == needle
  }
}
