/** JavaScript values as the form library sees them: the untyped contents of
    the value map, of grid rows and of column descriptors, with the
    truthiness rules that the library's `if (value)`, `!x` and `a || b`
    tests rely on. */
module Json {

  datatype Option<+T> = None | Some(value: T)

  /** A JSON-like JavaScript value. Numbers are integers here; `Obj` is a
      plain object seen as its own enumerable properties. */
  datatype Value =
    | Undef
    | Null
    | Bool(b: bool)
    | Num(n: int)
    | Str(s: string)
    | Arr(items: seq<Value>)
    | Obj(props: map<string, Value>)

  /** JavaScript's ToBoolean: `undefined`, `null`, `false`, `0` and `''` are
      falsy; every array and every object (even an empty one) is truthy. */
  predicate Truthy(v: Value) {
    match v
    case Undef => false
    case Null => false
    case Bool(b) => b
    case Num(n) => n != 0
    case Str(s) => s != ""
    case Arr(_) => true
    case Obj(_) => true
  }

  /** `v === undefined || v === null || v === ''` */
  predicate IsBlank(v: Value) {
    v == Undef || v == Null || v == Str("")
  }

  /** Property read `m[k]` on a plain object: `undefined` when the key is absent. */
  function Get(m: map<string, Value>, k: string): (r: Value)
    ensures k !in m ==> r == Undef
    ensures k in m ==> r == m[k]
  {
    if k in m then m[k] else Undef
  }

  /** The own properties that `{...v}` copies out of `v`. */
  function Spread(v: Value): (m: map<string, Value>)
    ensures v.Obj? ==> m == v.props
    ensures !v.Obj? ==> m == map[]
  {
    if v.Obj? then v.props else map[]
  }

  /** The digits of a natural number in base ten. */
  function NatToString(n: nat): (s: string)
    ensures |s| >= 1
    decreases n
  {
    var d := ['0', '1', '2', '3', '4', '5', '6', '7', '8', '9'][n % 10];
    if n < 10 then [d] else NatToString(n / 10) + [d]
  }

  /** JavaScript's ToString as used for a property key `obj[v]`. */
  function KeyOf(v: Value): (k: string)
    ensures v.Str? ==> k == v.s
  {
    match v
    case Undef => "undefined"
    case Null => "null"
    case Bool(b) => if b then "true" else "false"
    case Num(n) => if n < 0 then "-" + NatToString(-n) else NatToString(n)
    case Str(s) => s
    case Arr(_) => ""
    case Obj(_) => "[object Object]"
  }

  /** ToNumber for the relational comparisons `length < rule.value`:
      `None` stands for NaN, with which every comparison is false. */
  function NumberOf(v: Value): (r: Option<int>)
    ensures v.Num? ==> r == Some(v.n)
  {
    match v
    case Undef => None
    case Null => Some(0)
    case Bool(b) => Some(if b then 1 else 0)
    case Num(n) => Some(n)
    case Str(_) => None
    case Arr(a) =>
      // An array converts through its string: `[]`, `[null]` and
      // `[undefined]` give '' and so 0, and `[n]` gives n.
      if |a| == 0 then Some(0)
      else if |a| == 1 && a[0].Num? then Some(a[0].n)
      else if |a| == 1 && (a[0].Null? || a[0].Undef?) then Some(0)
      else None
    case Obj(_) => None
  }
}
