/** The values a configuration holder deals in: raw source strings, typed results,
    delayed values and the sentinel for "no default", together with the error kinds
    the resolution engine distinguishes and Python's textual forms of values. */
module Values {

  datatype Option<+T> = None | Some(value: T)

  /** The two error kinds the engine tells apart. NotFound is decouple's
      UndefinedValueError, which `_evaluate` catches to fall back to the default;
      Invalid stands for every other exception a cast raises (ValueError,
      TypeError, a schema ValidationError), all of which propagate. */
  datatype Error = NotFound | Invalid

  datatype Result<+T> = Ok(value: T) | Err(error: Error)

  /** Success or failure of a whole construction. */
  datatype Outcome = Pass | Fail(error: Error)

  /** A Python value as seen by the engine. Opaque is an already-typed object (a
      validated model instance, an enum member) known only through its str() text;
      Undefined is decouple's `undefined` sentinel. */
  datatype Value =
    | Str(s: string)
    | Int(i: int)
    | Bool(b: bool)
    | NoneValue
    | List(items: seq<Value>)
    | Dict(fields: seq<(string, Value)>)
    | Opaque(text: string)
    | Delayed(delay: Delay)
    | Undefined

  /** A ConfigenceDelay: its payload and the declaration index it captured. */
  datatype Delay = Delay(payload: Payload, index: nat)

  /** A string template with `{name}` placeholders, or a callable known by an
      identifier whose keyword parameters carry their own defaults. */
  datatype Payload =
    | Template(text: string)
    | Callable(fn: nat, params: seq<Param>)

  datatype Param = Param(name: string, default: Value)

  function DigitChar(d: nat): (c: char)
    requires d < 10
    ensures '0' <= c <= '9' && c as int - '0' as int == d
  {
    ['0', '1', '2', '3', '4', '5', '6', '7', '8', '9'][d]
  }

  /** Decimal digits of a natural number, most significant first, no leading zero. */
  function NatToString(n: nat): (r: string)
    ensures |r| > 0
    ensures forall k :: 0 <= k < |r| ==> '0' <= r[k] <= '9'
    ensures |r| > 1 ==> r[0] != '0'
    decreases n
  {
    if n < 10 then [DigitChar(n)] else NatToString(n / 10) + [DigitChar(n % 10)]
  }

  /** Python's str() of an int. */
  function IntToString(i: int): string
  {
    if i < 0 then "-" + NatToString(-i) else NatToString(i)
  }

  function JoinWith(parts: seq<string>, sep: string): string
  {
    if |parts| == 0 then ""
    else if |parts| == 1 then parts[0]
    else parts[0] + sep + JoinWith(parts[1..], sep)
  }

  /** Python's str() (quoted == false) and repr() (quoted == true) of a value.
      Strings are quoted with single quotes without escaping; delayed values and
      the undefined sentinel print an address in Python and get a fixed text here. */
  function Show(v: Value, quoted: bool): string
    decreases v
  {
    match v
    case Str(s) => if quoted then "'" + s + "'" else s
    case Int(i) => IntToString(i)
    case Bool(b) => if b then "True" else "False"
    case NoneValue => "None"
    case List(items) =>
      "[" + JoinWith(seq(|items|, k requires 0 <= k < |items| => Show(items[k], true)), ", ") + "]"
    case Dict(fields) =>
      "{" + JoinWith(seq(|fields|, k requires 0 <= k < |fields| =>
                           "'" + fields[k].0 + "': " + Show(fields[k].1, true)), ", ") + "}"
    case Opaque(text) => text
    case Delayed(_) => "<ConfigenceDelay>"
    case Undefined => "<Undefined>"
  }

  function Render(v: Value): string { Show(v, false) }

  function Repr(v: Value): string { Show(v, true) }
}
