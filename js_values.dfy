/** JSON values as the request handlers see them after body parsing,
    with the two JavaScript operators the handlers apply to them:
    truthiness (`!v`, `!!v`) and `typeof`. */
module JsValues {

  datatype Option<T> = None | Some(value: T)

  /** A parsed JSON value. Numbers are integers here (fractions are not
      modelled); `Other` stands for arrays and nested objects. */
  datatype JsVal = Null | Bool(b: bool) | Num(n: int) | Str(s: string) | Other

  /** A request body: field name to value. A key that is absent plays the
      role of `undefined`, which a JSON body cannot carry. */
  type Payload = map<string, JsVal>

  /** JavaScript truthiness: `null`, `false`, `0` and `""` are the falsy
      values; every array and object is truthy. */
  predicate Truthy(v: JsVal)
    ensures !Truthy(v) <==> v == Null || v == Bool(false) || v == Num(0) || v == Str("")
  {
    match v
    case Null => false
    case Bool(b) => b
    case Num(n) => n != 0
    case Str(s) => s != ""
    case Other => true
  }

  /** JavaScript `typeof`; note that `typeof null` is "object". */
  function TypeOf(v: JsVal): (t: string)
    ensures t == "number" <==> v.Num?
    ensures t == "boolean" <==> v.Bool?
    ensures t == "object" <==> v.Null? || v.Other?
  {
    match v
    case Null => "object"
    case Bool(_) => "boolean"
    case Num(_) => "number"
    case Str(_) => "string"
    case Other => "object"
  }
}
