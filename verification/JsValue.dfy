/** The JavaScript values a request parameter can be, and how they turn into text. */
module JsValue {
  import opened Options
  import opened Text

  datatype Member = Member(key: string, value: Value)

  /**
   `text` is what `toString` gives. A date also has its ISO text, unless it is an invalid date.
   The members of an object are in the order `Object.keys` lists them.
   */
  datatype Value =
    | Null
    | Undefined
    | Primitive(text: string)
    | Date(iso: Option<string>, text: string)
    | Array(elements: seq<Value>)
    | Object(members: seq<Member>)

  datatype Error = NotAnObject(key: string) | TypeError | RangeError

  datatype Result<+T> = Success(value: T) | Failure(error: Error)

  /** `String(value)`, which is what encoding a value that is not a string does first. */
  function Coerce(value: Value): string {
    match value
    case Null => "null"
    case Undefined => "undefined"
    case Primitive(text) => text
    case Date(_, text) => text
    case Array(elements) => Join(CoerceElements(elements), ",")
    case Object(_) => "[object Object]"
  }

  /** Joining an array leaves out `null` and `undefined`. */
  function CoerceElements(elements: seq<Value>): seq<string> {
    if elements == [] then []
    else
      [if elements[0].Null? || elements[0].Undefined? then "" else Coerce(elements[0])]
      + CoerceElements(elements[1..])
  }

  function CoerceAll(values: seq<Value>): seq<string> {
    seq(|values|, i requires 0 <= i < |values| => Coerce(values[i]))
  }

  /** A date as ISO text, anything else through its own `toString`, which may not be there. */
  function ConvertToString(value: Value): Result<string> {
    match value
    case Null => Failure(TypeError)
    case Undefined => Failure(TypeError)
    case Date(iso, _) => if iso.Some? then Success(iso.value) else Failure(RangeError)
    case _ => Success(Coerce(value))
  }

  /** `Object.keys` with the values: the members of an object, the indices of an array. */
  function Members(value: Value): seq<Member> {
    match value
    case Array(elements) =>
      seq(|elements|, i requires 0 <= i < |elements| => Member(Decimal(i), elements[i]))
    case Object(members) => members
    case _ => []
  }
}
