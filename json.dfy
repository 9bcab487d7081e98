/**
  Parsed JSON values, as `json.load` hands them to the loaders, together
  with the pieces of Python behaviour the loaders rely on: truthiness,
  `dict.get` with a default, and `str()` of a scalar.
 */
module JsonValues {
  import opened Wrappers

  /** A parsed JSON value; numbers are integers (floats are not modelled). */
  datatype Json =
    | JNull
    | JBool(b: bool)
    | JNum(n: int)
    | JStr(s: string)
    | JArr(elems: seq<Json>)
    | JObj(fields: map<string, Json>)

  /** Python's truth value of the object a JSON value decodes to. */
  predicate Truthy(v: Json) {
    match v
    case JNull => false
    case JBool(b) => b
    case JNum(n) => n != 0
    case JStr(s) => s != ""
    case JArr(es) => es != []
    case JObj(m) => m != map[]
  }

  /** `d.get(key, default)` on a dictionary. */
  function Get(m: map<string, Json>, key: string, default: Json): Json {
    if key in m then m[key] else default
  }

  /** The decimal digits of a natural number, most significant first. */
  function Digits(n: nat): (r: string)
    ensures |r| >= 1
    ensures forall i :: 0 <= i < |r| ==> '0' <= r[i] <= '9'
    ensures n >= 10 ==> r[0] != '0'
    decreases n
  {
    if n < 10 then [('0' as int + n) as char]
    else Digits(n / 10) + [('0' as int + n % 10) as char]
  }

  /** The value a string of decimal digits denotes. */
  function DigitsValue(s: string): int
    decreases |s|
  {
    if s == [] then 0 else DigitsValue(s[..|s| - 1]) * 10 + (s[|s| - 1] as int - '0' as int)
  }

  lemma {:induction false} DigitsRoundTrip(n: nat)
    ensures DigitsValue(Digits(n)) == n
    decreases n
  {
    if n >= 10 {
      DigitsRoundTrip(n / 10);
      var d := Digits(n / 10) + [('0' as int + n % 10) as char];
      assert d[..|d| - 1] == Digits(n / 10);
    }
  }

  /**
    `str(v)` for a value placed in an f-string. Scalars render as Python
    renders them; the `repr` of a list or a dictionary is not modelled and
    is None.
   */
  function Render(v: Json): (r: Option<string>)
    ensures v.JStr? ==> r == Some(v.s)
    ensures r.None? <==> (v.JArr? || v.JObj?)
  {
    match v
    case JNull => Some("None")
    case JBool(b) => Some(if b then "True" else "False")
    case JNum(n) => Some(if n < 0 then "-" + Digits(-n) else Digits(n))
    case JStr(s) => Some(s)
    case JArr(_) => None
    case JObj(_) => None
  }
}
