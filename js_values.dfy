/** The JavaScript values the handlers and helpers work on, with the language's
    truthiness and property access written out. */
module JsValues {
  import opened Wrappers

  /** A value as the handlers see it once a JSON body has been parsed: the JSON
      scalars, JavaScript's `undefined`, and objects. Numbers are integral. */
  datatype JsValue =
    | Undefined
    | Null
    | Bool(b: bool)
    | Num(n: int)
    | Str(s: string)
    | Obj(fields: map<string, JsValue>)

  /** JavaScript truthiness: `undefined`, `null`, `false`, `0` and `""` are
      falsy, every other value (every object included) is truthy. */
  predicate Truthy(v: JsValue) {
    match v
    case Undefined => false
    case Null => false
    case Bool(b) => b
    case Num(n) => n != 0
    case Str(s) => s != ""
    case Obj(_) => true
  }

  predicate Nullish(v: JsValue) {
    v.Undefined? || v.Null?
  }

  /** `a || b`: the first operand when it is truthy, the second otherwise. */
  function Or(a: JsValue, b: JsValue): JsValue {
    if Truthy(a) then a else b
  }

  /** `v?.[name]`: `undefined` on a nullish value or a missing property. Only
      objects carry properties here; the prototype members of primitives
      (such as a string's `length`) are not modelled. */
  function Prop(v: JsValue, name: string): JsValue {
    if v.Obj? && name in v.fields then v.fields[name] else Undefined
  }

  /** `record[name]` on a parsed JSON object. */
  function Field(record: map<string, JsValue>, name: string): JsValue {
    if name in record then record[name] else Undefined
  }

  /** The message of the TypeError V8 throws when a property is read from
      `undefined` or `null`. */
  function TypeErrorMessage(v: JsValue, name: string): string
    requires Nullish(v)
  {
    "Cannot read properties of " + (if v.Undefined? then "undefined" else "null")
      + " (reading '" + name + "')"
  }

  /** `v.name` without optional chaining: throws on a nullish value. */
  function Member(v: JsValue, name: string): (r: Result<JsValue>)
    ensures r.Err? <==> Nullish(v)
    ensures r.Ok? ==> r.value == Prop(v, name)
  {
    if Nullish(v) then Err(TypeErrorMessage(v, name)) else Ok(Prop(v, name))
  }

  /** The result of one outbound HTTP call made with axios: the parsed body of
      a 2xx response, or the message of the error axios throws (a transport
      failure, or a response whose status is not 2xx). */
  datatype HttpOutcome = Responded(data: JsValue) | Failed(message: string)

  /** An incoming API request: its HTTP verb and its parsed JSON body. */
  datatype HttpRequest = HttpRequest(verb: string, body: map<string, JsValue>)
}
