/** The JavaScript values an article or an options record can hold, with the
    two coercions the pipeline applies to them: truthiness and `String(v)`. */
module JsValues {
  import opened JsStrings

  /** Arrays hold strings only (keyword lists); `Obj` is a plain object such as the math map. */
  datatype JsValue =
    | Undefined
    | Null
    | Bool(b: bool)
    | Num(n: int)
    | Str(s: string)
    | List(items: seq<string>)
    | Obj

  /** The errors the pipeline can raise. `OutsideModel` marks an input this model
      does not interpret (a regular expression built from text with metacharacters,
      a non-string list of disallowed characters) rather than an error of the source. */
  datatype JsError = TypeError | OutsideModel

  datatype Result<T> = Ok(value: T) | Err(error: JsError)

  predicate Truthy(v: JsValue) {
    match v
    case Undefined => false
    case Null => false
    case Bool(b) => b
    case Num(n) => n != 0
    case Str(s) => s != ""
    case List(_) => true
    case Obj => true
  }

  function DigitChar(d: nat): char
    requires d < 10
  {
    "0123456789"[d]
  }

  function Digits(n: nat): string
    decreases n
  {
    if n < 10 then [DigitChar(n)] else Digits(n / 10) + [DigitChar(n % 10)]
  }

  /** Decimal rendering of an integral number. */
  function Decimal(n: int): string {
    if n < 0 then "-" + Digits(-n) else Digits(n)
  }

  /** `String(v)`. */
  function ToJsString(v: JsValue): string {
    match v
    case Undefined => "undefined"
    case Null => "null"
    case Bool(b) => if b then "true" else "false"
    case Num(n) => Decimal(n)
    case Str(s) => s
    case List(items) => Join(items, ",")
    case Obj => "[object Object]"
  }

  /** `String(v || '')`: the text a placeholder takes for a value. */
  function TextOf(v: JsValue): (r: string)
    ensures !Truthy(v) ==> r == ""
    ensures v.Str? ==> r == v.s
    ensures v.List? ==> r == Join(v.items, ",")
  {
    if Truthy(v) then ToJsString(v) else ""
  }
}
