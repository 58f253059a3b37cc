/**
 * The Python values a Terraform resource configuration is made of once the
 * HCL loader has turned it into nested lists and dicts, the exceptions the
 * check can raise while reading them, and the two type forcers the check
 * imports (`force_list` and `force_int` from checkov's type_forcers module).
 */
module PyValues {

  /** A configuration value: Python's None, a string, an int, a bool, a list or a dict. */
  datatype Value =
    | Null
    | Str(s: string)
    | Int(i: int)
    | Bool(b: bool)
    | List(elems: seq<Value>)
    | Dict(fields: map<string, Value>)

  datatype Option<+T> = None | Some(value: T)

  /** The Python exceptions that reading a configuration can raise. */
  datatype PyError =
    | KeyError(key: Value)   // `d[k]` with `k` not a key of `d`
    | IndexError             // `xs[0]` on an empty list or string
    | TypeError              // subscripting or iterating a scalar

  /** The outcome of a Python expression: a value, or the exception it raised. */
  datatype Except<+T> = Ok(value: T) | Raised(error: PyError) {
    predicate IsFailure() {
      Raised?
    }

    function PropagateFailure<U>(): Except<U>
      requires Raised?
    {
      Raised(error)
    }

    function Extract(): T
      requires Ok?
    {
      value
    }
  }

  /** `force_list(v)`: a list is returned as it is, anything else is wrapped in a one-element list. */
  function ForceList(v: Value): (r: seq<Value>)
    ensures v.List? ==> r == v.elems
    ensures !v.List? ==> |r| == 1 && r[0] == v
  {
    if v.List? then v.elems else [v]
  }

  /** Normalising the result of `force_list` a second time changes nothing. */
  lemma ForceListIdempotent(v: Value)
    ensures ForceList(List(ForceList(v))) == ForceList(v)
    ensures ForceList(v) == [] <==> v == List([])
  {
  }

  /** `v[0]` in Python. */
  function Subscript0(v: Value): (r: Except<Value>)
    ensures r.Ok? <==> (v.List? && |v.elems| > 0) || (v.Str? && |v.s| > 0)
    ensures r.Ok? && v.List? ==> r.value == v.elems[0]
    ensures r.Ok? && v.Str? ==> r.value == Str([v.s[0]])
    ensures (v == List([]) || v == Str("")) ==> r == Raised(IndexError)
    ensures v.Dict? ==> r == Raised(KeyError(Int(0)))
    ensures (v.Null? || v.Int? || v.Bool?) ==> r == Raised(TypeError)
  {
    match v
    case List(xs) => if |xs| == 0 then Raised(IndexError) else Ok(xs[0])
    case Str(s) => if |s| == 0 then Raised(IndexError) else Ok(Str([s[0]]))
    // configuration dicts have string keys only, so the int key 0 is never present
    case Dict(_) => Raised(KeyError(Int(0)))
    case _ => Raised(TypeError)
  }

  /** `force_list(v)[0]`: the first element of a list, or a scalar itself. */
  function FirstOf(v: Value): (r: Except<Value>)
    ensures r.Raised? <==> v == List([])
    ensures r.Raised? ==> r.error == IndexError
    ensures r.Ok? ==> r.value == ForceList(v)[0]
    ensures r.Ok? && !v.List? ==> r.value == v
  {
    Subscript0(List(ForceList(v)))
  }

  /**
   * The items `for x in v` visits. A dict is iterated over its keys, which
   * are strings; they are represented by no items, since their order is not
   * modelled and the only caller skips every item that is not a dict.
   */
  function Iterate(v: Value): (r: Except<seq<Value>>)
    ensures r.Raised? <==> v.Null? || v.Int? || v.Bool?
    ensures r.Raised? ==> r.error == TypeError
    ensures r.Ok? && v.List? ==> r.value == v.elems
    ensures r.Ok? && !v.List? ==> forall k :: 0 <= k < |r.value| ==> !r.value[k].Dict?
    ensures r.Ok? && v.Str? ==> |r.value| == |v.s|
  {
    match v
    case List(xs) => Ok(xs)
    case Str(s) => Ok(seq(|s|, k requires 0 <= k < |s| => Str([s[k]])))
    case Dict(_) => Ok([])
    case _ => Raised(TypeError)
  }

  predicate IsDigit(c: char) {
    '0' <= c <= '9'
  }

  predicate AllDigits(s: string) {
    forall k :: 0 <= k < |s| ==> IsDigit(s[k])
  }

  /** The number a run of decimal digits denotes. */
  function DigitsValue(s: string): (n: nat)
    requires AllDigits(s)
    ensures s == [] ==> n == 0
  {
    if s == [] then 0 else DigitsValue(s[..|s| - 1]) * 10 + (s[|s| - 1] as int - '0' as int)
  }

  /** `int(s)` for a string of decimal digits with an optional leading sign; None where Python raises. */
  function ParseInt(s: string): (r: Option<int>)
    ensures var d := if |s| > 0 && (s[0] == '-' || s[0] == '+') then s[1..] else s;
      r.Some? <==> |d| > 0 && AllDigits(d)
    ensures r.Some? && s[0] == '-' ==> r.value <= 0
    ensures r.Some? && s[0] != '-' ==> r.value >= 0
  {
    var signed := |s| > 0 && (s[0] == '-' || s[0] == '+');
    var digits := if signed then s[1..] else s;
    if |digits| == 0 || !AllDigits(digits) then None
    else
      var magnitude: int := DigitsValue(digits);
      Some(if s[0] == '-' then -magnitude else magnitude)
  }

  /**
   * `force_int(v)`: an int is returned as it is (a bool is an int in Python,
   * True being 1), a string is parsed, and every value `int()` rejects
   * gives None.
   */
  function ForceInt(v: Value): (r: Option<int>)
    ensures r.Some? ==> v.Int? || v.Bool? || (v.Str? && |v.s| > 0)
    ensures v.Int? ==> r == Some(v.i)
    ensures v.Bool? ==> r == Some(if v.b then 1 else 0)
    ensures v.Str? ==> r == ParseInt(v.s)
  {
    match v
    case Int(n) => Some(n)
    case Bool(b) => Some(if b then 1 else 0)
    case Str(s) => ParseInt(s)
    case _ => None
  }

  function DigitChar(d: nat): (c: char)
    requires d < 10
    ensures IsDigit(c)
  {
    ('0' as int + d) as char
  }

  /** `str(n)` for a natural number. */
  function NatDigits(n: nat): (s: string)
    ensures |s| > 0
    ensures AllDigits(s)
  {
    if n < 10 then [DigitChar(n)] else NatDigits(n / 10) + [DigitChar(n % 10)]
  }

  /** `str(n)`: the decimal form of an integer. */
  function Decimal(n: int): (s: string)
    ensures |s| > 0
    ensures n >= 0 <==> IsDigit(s[0])
  {
    if n < 0 then "-" + NatDigits(-n) else NatDigits(n)
  }

  lemma {:induction false} NatDigitsValue(n: nat)
    ensures DigitsValue(NatDigits(n)) == n
  {
    if n >= 10 {
      NatDigitsValue(n / 10);
      var s := NatDigits(n);
      assert s[..|s| - 1] == NatDigits(n / 10);
    }
  }

  /** `force_int(str(n)) == n`: an integer written out as a string is read back unchanged. */
  lemma ForceIntDecimal(n: int)
    ensures ForceInt(Str(Decimal(n))) == Some(n)
  {
    if n < 0 {
      NatDigitsValue(-n);
      assert Decimal(n)[1..] == NatDigits(-n);
    } else {
      NatDigitsValue(n);
    }
  }
}
