/** The JSON values the browser keeps in localStorage, with JavaScript's truthiness and property access on them. */
module Json {

  datatype Json =
    | JNull
    | JBool(b: bool)
    | JNum(n: real)
    | JStr(s: string)
    | JArr(items: seq<Json>)
    | JObj(members: map<string, Json>)

  /** `!!v` */
  predicate Truthy(v: Json) {
    match v
    case JNull => false
    case JBool(b) => b
    case JNum(n) => n != 0.0
    case JStr(s) => s != ""
    case JArr(_) => true
    case JObj(_) => true
  }

  /** The outcome of reading `v[key]`: a TypeError, `undefined`, or a value. */
  datatype Access = Throws | Undefined | Defined(value: Json)

  /** `v[key]` for a key that no prototype defines (such as "id"). */
  function Property(v: Json, key: string): (a: Access)
    ensures a.Throws? <==> v == JNull
    ensures a.Defined? <==> v.JObj? && key in v.members
    ensures a.Defined? ==> a.value == v.members[key]
  {
    match v
    case JNull => Throws
    case JObj(m) => if key in m then Defined(m[key]) else Undefined
    case _ => Undefined
  }
}
