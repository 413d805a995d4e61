/** JSON values as JavaScript sees them after `JSON.parse`, with the two
    operations the program applies to them: truthiness tests (`!x`, `a && b`)
    and property access (`obj.key`). */
module Json {
  import opened Wrappers

  /** A parsed JSON value. Numbers are kept as reals: JSON text has no NaN or
      infinities, and only the zero test matters to the program. */
  datatype Value =
    | JNull
    | JBool(b: bool)
    | JNum(x: real)
    | JStr(s: string)
    | JArr(items: seq<Value>)
    | JObj(fields: map<string, Value>)

  /** An object literal's own keys; JSON texts build these. */
  type Object = map<string, Value>

  /** JavaScript truthiness of a property read, where `None` is `undefined`.
      The falsy JSON values are `null`, `false`, `0` and `""`. */
  predicate Truthy(v: Option<Value>) {
    match v
    case None => false
    case Some(JNull) => false
    case Some(JBool(b)) => b
    case Some(JNum(x)) => x != 0.0
    case Some(JStr(s)) => s != ""
    case Some(JArr(_)) => true
    case Some(JObj(_)) => true
  }

  /** `v.key` for a value that is not `null`: an object's own property, and
      `undefined` for every other kind of value (strings, numbers, booleans and
      arrays have no property of the names the program reads). Reading a
      property of `null` throws: a caller that can meet `null` either tests
      `JNull?` first or, like `Dashboard.SubjectMatches`, treats `None` as the
      throw, which is right because `null.name` throws as well. */
  function Member(v: Value, key: string): (r: Option<Value>)
    ensures r.Some? <==> v.JObj? && key in v.fields
    ensures r.Some? ==> r.value == v.fields[key]
  {
    match v
    case JObj(fields) => if key in fields then Some(fields[key]) else None
    case _ => None
  }

  /** The own enumerable properties that object spread (`{...v}`) copies out of
      a parsed value. Only objects contribute here; a text that begins with `{`
      and parses is always an object, so the other cases do not arise. */
  function Spread(v: Value): (r: Object)
    ensures v.JObj? ==> r == v.fields
  {
    if v.JObj? then v.fields else map[]
  }
}
