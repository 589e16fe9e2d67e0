/** Component values: the five-variant scalar union and its coercing getters
    and replacing setters. */
module Values {
  import opened Wrappers
  import Variant

  const I64_MIN: int := -0x8000_0000_0000_0000
  const I64_LIMIT: int := 0x8000_0000_0000_0000

  newtype I64 = x: int | I64_MIN <= x < I64_LIMIT
  newtype U64 = x: int | 0 <= x < 0x1_0000_0000_0000_0000

  /** An IEEE-754 double, carried as its bit pattern; no arithmetic on it is modelled. */
  datatype F64 = F64(bits: U64)

  /** The floating-point conversions the getters delegate to the platform. */
  datatype FloatOps = FloatOps(
    toI64: F64 -> I64,         // `value as i64`
    isNonZero: F64 -> bool,    // `value != 0.0`
    toString: F64 -> string    // `value.to_string()`
  )

  datatype ComponentValue =
    | Nil
    | Int(i: I64)
    | Str(s: string)
    | Bool(b: bool)
    | Real(r: F64)

  /** `Default` for the value type: the empty value. */
  function DefaultValue(): (v: ComponentValue)
    ensures GetType(v) == Variant.Nil
  {
    Nil
  }

  /** The kind of the active variant. */
  function GetType(v: ComponentValue): (t: Variant.VariantType)
    ensures Variant.IsScalar(t)
    ensures (t == Variant.Nil <==> v.Nil?) && (t == Variant.Int <==> v.Int?) && (t == Variant.String <==> v.Str?)
    ensures (t == Variant.Bool <==> v.Bool?) && (t == Variant.Real <==> v.Real?)
  {
    match v
    case Nil => Variant.Nil
    case Int(_) => Variant.Int
    case Str(_) => Variant.String
    case Bool(_) => Variant.Bool
    case Real(_) => Variant.Real
  }

  // Each setter replaces the whole value, whatever variant it held before.

  function SetNil(v: ComponentValue): (r: ComponentValue)
    ensures GetType(r) == Variant.Nil && IsEmptyOfKind(r)
  {
    Nil
  }

  function SetInt(v: ComponentValue, x: I64): (r: ComponentValue)
    ensures GetType(r) == Variant.Int
    ensures forall f :: GetInt(r, f) == x
  {
    Int(x)
  }

  function SetString(v: ComponentValue, x: string): (r: ComponentValue)
    ensures GetType(r) == Variant.String
    ensures forall f :: GetString(r, f) == x
  {
    Str(x)
  }

  function SetBool(v: ComponentValue, x: bool): (r: ComponentValue)
    ensures GetType(r) == Variant.Bool
    ensures forall f :: GetBool(r, f) == x
  {
    Bool(x)
  }

  function SetReal(v: ComponentValue, x: F64): (r: ComponentValue)
    ensures GetType(r) == Variant.Real
    ensures forall f :: GetString(r, f) == f.toString(x) && GetInt(r, f) == f.toI64(x)
  {
    Real(x)
  }

  /** `get_int`: every empty value reads as zero, a string reads as its parsed value
      when it parses, and a boolean reads as 1 or 0. */
  function GetInt(v: ComponentValue, f: FloatOps): (r: I64)
    ensures !v.Real? && IsEmptyOfKind(v) ==> r == 0
    ensures v.Int? ==> r == v.i
    ensures v.Str? && ParseI64(v.s).Some? ==> r == ParseI64(v.s).value
    ensures v.Bool? ==> (r == 1 <==> v.b) && (r == 0 <==> !v.b)
  {
    match v
    case Nil => 0
    case Int(x) => x
    case Str(s) => match ParseI64(s) { case Some(x) => x case None => 0 }
    case Bool(b) => if b then 1 else 0
    case Real(x) => f.toI64(x)
  }

  /** `get_string`: the empty value renders as the empty string, and an integer renders
      as decimal text that parses back to it. */
  function GetString(v: ComponentValue, f: FloatOps): (r: string)
    ensures v.Nil? ==> r == ""
    ensures v.Int? ==> ParseI64(r) == Some(v.i)
    ensures v.Str? ==> r == v.s
  {
    match v
    case Nil => ""
    case Int(x) => IntDecimalRoundTrip(x as int); IntToDecimal(x as int)
    case Str(s) => s
    case Bool(b) => if b then "true" else "false"
    case Real(x) => f.toString(x)
  }

  /** `get_bool` as written: a string converts to true exactly when it is EMPTY. */
  function GetBool(v: ComponentValue, f: FloatOps): (r: bool)
    ensures !v.Str? && !v.Real? ==> (r <==> GetInt(v, f) != 0)
    ensures v.Str? ==> r == !GetBoolIntended(v, f)
    ensures !v.Str? ==> r == GetBoolIntended(v, f)
  {
    match v
    case Nil => false
    case Int(x) => x != 0
    case Str(s) => |s| == 0
    case Bool(b) => b
    case Real(x) => f.isNonZero(x)
  }

  /** `get_bool` with the string case the other cases imply: a value is falsy
      exactly when it is the empty value of its kind. */
  function GetBoolIntended(v: ComponentValue, f: FloatOps): (r: bool)
    ensures !v.Real? ==> (r <==> !IsEmptyOfKind(v))
  {
    match v
    case Nil => false
    case Int(x) => x != 0
    case Str(s) => |s| != 0
    case Bool(b) => b
    case Real(x) => f.isNonZero(x)
  }

  /** The value each non-real kind starts from: `Nil`, `0`, `""`, `false`. */
  predicate IsEmptyOfKind(v: ComponentValue) {
    v == Nil || v == Int(0) || v == Str("") || v == Bool(false)
  }

  lemma SetThenGetType(v: ComponentValue, x: I64, s: string, b: bool, r: F64)
    ensures GetType(SetNil(v)) == Variant.Nil
    ensures GetType(SetInt(v, x)) == Variant.Int
    ensures GetType(SetString(v, s)) == Variant.String
    ensures GetType(SetBool(v, b)) == Variant.Bool
    ensures GetType(SetReal(v, r)) == Variant.Real
  {
  }

  /** Each getter returns what the matching setter stored, whatever the value held before. */
  lemma SetThenGetRoundTrips(v: ComponentValue, f: FloatOps, x: I64, s: string, b: bool)
    ensures GetInt(SetInt(v, x), f) == x
    ensures GetString(SetString(v, s), f) == s
    ensures GetBool(SetBool(v, b), f) == b
  {
  }

  /** The coercion table: the empty value reads as zero, the empty string and false;
      booleans read as 1/0; a string that does not parse as a 64-bit integer reads as 0. */
  lemma CoercionTable(f: FloatOps, s: string)
    ensures GetInt(Nil, f) == 0 && GetString(Nil, f) == "" && !GetBool(Nil, f)
    ensures GetInt(Bool(true), f) == 1 && GetInt(Bool(false), f) == 0
    ensures ParseI64(s).None? ==> GetInt(Str(s), f) == 0
    ensures ParseI64(s).Some? ==> GetInt(Str(s), f) == ParseI64(s).value
  {
  }

  /** On every kind but strings and reals, `get_bool` is "`get_int` is non-zero". */
  lemma GetBoolAgreesWithGetInt(v: ComponentValue, f: FloatOps)
    requires v.Nil? || v.Int? || v.Bool?
    ensures GetBool(v, f) <==> GetInt(v, f) != 0
  {
  }

  /** Writing an integer as a string and reading the string back as an integer
      gives the integer back. */
  lemma IntThroughStringRoundTrip(x: I64, f: FloatOps)
    ensures GetInt(Str(GetString(Int(x), f)), f) == x
  {
  }

  /** As written, the string produced from the empty value reads as true,
      although the empty value itself reads as false; and "true" reads as false. */
  lemma GetBoolStringInverted(f: FloatOps)
    ensures GetBool(Str(GetString(Nil, f)), f) != GetBool(Nil, f)
    ensures !GetBool(Str(GetString(Bool(true), f)), f)
  {
  }

  /** With the intended string case the empty value and its string agree. */
  lemma GetBoolIntendedStringAgrees(v: ComponentValue, f: FloatOps)
    requires v.Nil? || v.Str?
    ensures GetBoolIntended(Str(GetString(v, f)), f) == GetBoolIntended(v, f)
  {
  }

  // ---------------------------------------------------------------------
  // Decimal text of 64-bit integers: `i64::to_string` and `str::parse::<i64>`.

  predicate IsDigit(c: char) { '0' <= c <= '9' }

  function DigitValue(c: char): nat
    requires IsDigit(c)
  {
    (c as int - '0' as int) as nat
  }

  function DigitChar(d: nat): (c: char)
    requires d < 10
    ensures IsDigit(c) && DigitValue(c) == d
  {
    ('0' as int + d) as char
  }

  /** The value of a string of decimal digits, most significant first. */
  function DecimalValue(t: string): nat
    requires forall k :: 0 <= k < |t| ==> IsDigit(t[k])
  {
    if |t| == 0 then 0 else 10 * DecimalValue(t[..|t| - 1]) + DigitValue(t[|t| - 1])
  }

  /** Shortest decimal digits of `n`. */
  function NatToDecimal(n: nat): (t: string)
    ensures |t| > 0
    ensures forall k :: 0 <= k < |t| ==> IsDigit(t[k])
  {
    if n < 10 then [DigitChar(n)] else NatToDecimal(n / 10) + [DigitChar(n % 10)]
  }

  /** `i64::to_string`: a minus sign exactly for negatives, then the shortest digits. */
  function IntToDecimal(x: int): (t: string)
    ensures |t| > 0
    ensures t[0] == '-' <==> x < 0
    ensures x >= 0 ==> IsDigit(t[0])
    ensures forall k :: 1 <= k < |t| ==> IsDigit(t[k])
  {
    if x < 0 then "-" + NatToDecimal(-x) else NatToDecimal(x)
  }

  /** The syntax `str::parse::<i64>` accepts: an optional sign and at least one digit. */
  predicate IsSignedDecimal(s: string) {
    && |s| > 0
    && (IsDigit(s[0]) || ((s[0] == '-' || s[0] == '+') && |s| > 1))
    && forall k :: 1 <= k < |s| ==> IsDigit(s[k])
  }

  /** `str::parse::<i64>`: an optional sign, then one or more ASCII digits,
      and the value must fit in 64 bits; anything else is an error. */
  function ParseI64(s: string): (r: Option<I64>)
    ensures r.Some? ==> IsSignedDecimal(s)
    ensures IsSignedDecimal(s) && s[0] == '-' ==>
      var magnitude: int := DecimalValue(s[1..]);
      (r.Some? <==> I64_MIN <= -magnitude) && (r.Some? ==> r.value as int == -magnitude)
    ensures IsSignedDecimal(s) && s[0] != '-' ==>
      var magnitude := if s[0] == '+' then DecimalValue(s[1..]) else DecimalValue(s);
      (r.Some? <==> magnitude < I64_LIMIT) && (r.Some? ==> r.value as int == magnitude)
  {
    if |s| > 0 && (s[0] == '-' || s[0] == '+') then
      var digits := s[1..];
      if |digits| == 0 || exists k :: 0 <= k < |digits| && !IsDigit(digits[k]) then None
      else
        var magnitude: int := DecimalValue(digits);
        var x: int := if s[0] == '-' then -magnitude else magnitude;
        if I64_MIN <= x < I64_LIMIT then Some(x as I64) else None
    else if |s| == 0 || exists k :: 0 <= k < |s| && !IsDigit(s[k]) then None
    else
      var x := DecimalValue(s);
      if x < I64_LIMIT then Some(x as I64) else None
  }

  lemma {:induction false} NatDecimalRoundTrip(n: nat)
    ensures DecimalValue(NatToDecimal(n)) == n
  {
    if n >= 10 {
      var t := NatToDecimal(n);
      var prefix := NatToDecimal(n / 10);
      assert t == prefix + [DigitChar(n % 10)];
      assert t[..|t| - 1] == prefix;
      NatDecimalRoundTrip(n / 10);
    }
  }

  /** Parsing the decimal text of a 64-bit integer gives the integer back. */
  lemma IntDecimalRoundTrip(x: int)
    requires I64_MIN <= x < I64_LIMIT
    ensures ParseI64(IntToDecimal(x)) == Some(x as I64)
  {
    if x < 0 {
      var t := IntToDecimal(x);
      assert t[1..] == NatToDecimal(-x);
      NatDecimalRoundTrip(-x);
    } else {
      var t := NatToDecimal(x);
      assert t[0] != '-' && t[0] != '+' by { assert IsDigit(t[0]); }
      NatDecimalRoundTrip(x);
    }
  }
}
