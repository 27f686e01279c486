/** The request and response bodies of the HTTP endpoints, as parsed JSON
    values, with Python's truthiness and `str()` rendering. */
module Json {
  import opened Wrappers

  datatype Value =
    | Null
    | Bool(b: bool)
    | Int(i: int)
    | Str(s: string)
    | List(items: seq<Value>)
    | Object(fields: map<string, Value>)

  /** `bool(v)`: null, false, zero and empty strings, lists and objects
      are false. */
  predicate Truthy(v: Value) {
    match v
    case Null => false
    case Bool(b) => b
    case Int(i) => i != 0
    case Str(s) => s != []
    case List(items) => items != []
    case Object(fields) => fields != map[]
  }

  /** `data.get(key)`: null for a missing key. */
  function Get(fields: map<string, Value>, key: string): (r: Value)
    ensures key !in fields ==> r == Null
    ensures key in fields ==> r == fields[key]
  {
    if key in fields then fields[key] else Null
  }

  /** An optional string as JSON: `None` becomes null. */
  function FromOption(o: Option<string>): (r: Value)
    ensures o.None? <==> r.Null?
    ensures o.Some? ==> r == Str(o.value)
  {
    match o
    case None => Null
    case Some(s) => Str(s)
  }

  /** The inverse of `FromOption` on what it produces. */
  function ToOption(v: Value): (r: Option<string>)
    ensures v.Str? ==> r == Some(v.s)
    ensures v.Null? ==> r == None
  {
    match v
    case Str(s) => Some(s)
    case _ => None
  }

  lemma OptionRoundTrip(o: Option<string>)
    ensures ToOption(FromOption(o)) == o
  {
  }

  function DigitChar(d: nat): (c: char)
    requires d < 10
    ensures '0' <= c <= '9'
  {
    ['0', '1', '2', '3', '4', '5', '6', '7', '8', '9'][d]
  }

  /** Decimal digits of `n`, most significant first, without leading
      zeros. */
  function NatText(n: nat): (r: string)
    ensures r != [] && (forall k :: 0 <= k < |r| ==> '0' <= r[k] <= '9')
    ensures |r| > 1 ==> r[0] != '0'
    decreases n
  {
    if n < 10 then [DigitChar(n)] else NatText(n / 10) + [DigitChar(n % 10)]
  }

  /** The value the digits spell. */
  function DigitsValue(r: string): int
    decreases |r|
  {
    if r == [] then 0 else DigitsValue(r[..|r| - 1]) * 10 + (r[|r| - 1] as int - '0' as int)
  }

  /** Reading the digits back gives the number. */
  lemma {:induction false} NatTextValue(n: nat)
    ensures DigitsValue(NatText(n)) == n
    decreases n
  {
    if n >= 10 {
      var r := NatText(n);
      assert r[..|r| - 1] == NatText(n / 10);
      NatTextValue(n / 10);
      assert DigitChar(n % 10) as int - '0' as int == n % 10 by {
        var ds := ['0', '1', '2', '3', '4', '5', '6', '7', '8', '9'];
        assert forall d :: 0 <= d < 10 ==> ds[d] as int - '0' as int == d;
      }
    } else {
      assert DigitChar(n) as int - '0' as int == n by {
        var ds := ['0', '1', '2', '3', '4', '5', '6', '7', '8', '9'];
        assert forall d :: 0 <= d < 10 ==> ds[d] as int - '0' as int == d;
      }
    }
  }

  /** `str(i)` for an integer. */
  function IntText(i: int): (r: string)
    ensures i >= 0 ==> r == NatText(i)
    ensures i < 0 ==> r == "-" + NatText(-i)
  {
    if i < 0 then "-" + NatText(-i) else NatText(i)
  }

  /** `str(v)` for the scalar values; lists and objects are rendered by
      `repr`, which is not modelled. */
  function Render(v: Value, repr: Value -> string): (r: string)
    ensures v.Str? ==> r == v.s
    ensures v.Null? ==> r == "None"
    ensures v.Bool? ==> r == (if v.b then "True" else "False")
    ensures v.Int? ==> r == IntText(v.i)
  {
    match v
    case Null => "None"
    case Bool(b) => if b then "True" else "False"
    case Int(i) => IntText(i)
    case Str(s) => s
    case _ => repr(v)
  }
}
