/** The optional-value type used throughout the model. */
module Maybe {
  datatype Option<T> = None | Some(value: T) {
    function GetOr(default: T): T {
      match this
      case Some(v) => v
      case None => default
    }
  }
}

/** The JavaScript values that arrive in a JSON request body, and the three
    operations on them that the routes rely on: truthiness (`!x`, `x || y`),
    strict equality (`===`) and `parseInt`. */
module Js {
  import Text

  /** A JSON value as a route sees it. Numbers are integers; `NaN` is what a
      failed `parseInt` yields. */
  datatype Val = Undefined | Null | Bool(b: bool) | Num(n: int) | NaN | Str(s: string)

  /** `ToBoolean`: the falsy values are undefined, null, false, 0, NaN and "". */
  predicate Truthy(v: Val) {
    match v
    case Undefined => false
    case Null => false
    case Bool(b) => b
    case Num(n) => n != 0
    case NaN => false
    case Str(s) => s != ""
  }

  /** `a === b`: same type and value, and NaN equals nothing. */
  predicate StrictEq(a: Val, b: Val) {
    a == b && !a.NaN?
  }

  /** `x || fallback`. */
  function Or(x: Val, fallback: Val): (r: Val)
    ensures Truthy(x) ==> r == x
    ensures !Truthy(x) ==> r == fallback
  {
    if Truthy(x) then x else fallback
  }

  predicate IsDecimalDigit(c: char) { '0' <= c <= '9' }

  predicate IsHexDigit(c: char) {
    ('0' <= c <= '9') || ('a' <= c <= 'f') || ('A' <= c <= 'F')
  }

  function DigitValue(c: char): (d: nat)
    requires IsDecimalDigit(c) || IsHexDigit(c)
    ensures d < 16
    ensures IsDecimalDigit(c) ==> d < 10
  {
    if '0' <= c <= '9' then (c as int) - ('0' as int)
    else if 'a' <= c <= 'f' then (c as int) - ('a' as int) + 10
    else (c as int) - ('A' as int) + 10
  }

  predicate IsDigit(c: char, hex: bool) {
    if hex then IsHexDigit(c) else IsDecimalDigit(c)
  }

  /** The longest prefix of `s` made of digits of the radix. */
  function DigitPrefix(s: string, hex: bool): (r: string)
    ensures |r| <= |s| && r == s[..|r|]
    ensures forall i :: 0 <= i < |r| ==> IsDigit(r[i], hex)
    ensures |r| < |s| ==> !IsDigit(s[|r|], hex)
    decreases |s|
  {
    if s != [] && IsDigit(s[0], hex) then [s[0]] + DigitPrefix(s[1..], hex) else []
  }

  /** The number a digit string denotes in radix 10 or 16. */
  function DigitsValue(ds: string, hex: bool): nat
    requires forall i :: 0 <= i < |ds| ==> IsDigit(ds[i], hex)
    decreases |ds|
  {
    if ds == [] then 0
    else
      var last := ds[|ds| - 1];
      assert IsDigit(last, hex);
      DigitsValue(ds[..|ds| - 1], hex) * (if hex then 16 else 10) + DigitValue(last)
  }

  /** `parseInt(s)` with no radix: leading white space, an optional sign, an
      optional `0x`/`0X` prefix selecting radix 16, then the longest run of
      digits; no digits at all gives NaN. */
  function ParseIntString(s: string): (r: Val)
    ensures r.Num? || r.NaN?
  {
    ParseSigned(Text.TrimStart(s))
  }

  /** The sign, then the unsigned part. */
  function ParseSigned(t: string): (r: Val)
    ensures r.Num? || r.NaN?
  {
    if |t| > 0 && (t[0] == '-' || t[0] == '+') then
      var u := ParseUnsigned(t[1..]);
      if u.Num? && t[0] == '-' then Num(-u.n) else u
    else ParseUnsigned(t)
  }

  /** The radix prefix, then the longest run of digits. */
  function ParseUnsigned(rest: string): (r: Val)
    ensures r.Num? || r.NaN?
    ensures r.Num? ==> r.n >= 0
  {
    var hex := |rest| >= 2 && rest[0] == '0' && (rest[1] == 'x' || rest[1] == 'X');
    var body := if hex then rest[2..] else rest;
    var ds := DigitPrefix(body, hex);
    if ds == [] then NaN else Num(DigitsValue(ds, hex))
  }

  /** `parseInt(v)`: the argument is first converted to a string. An integer
      prints as itself; `true`, `null`, `undefined` and `NaN` print as words
      that hold no digits. */
  function ParseInt(v: Val): (r: Val)
    ensures r.Num? || r.NaN?
    ensures v.Num? ==> r == v
  {
    match v
    case Num(n) => Num(n)
    case Str(s) => ParseIntString(s)
    case _ => NaN
  }

  /** `parseInt` of a string of decimal digits is the number they denote. */
  lemma ParseIntOfDecimal(ds: string)
    requires ds != [] && forall i :: 0 <= i < |ds| ==> IsDecimalDigit(ds[i])
    ensures ParseIntString(ds) == Num(DigitsValue(ds, false))
  {
    UnsignedDecimal(ds);
    UnsignedStart(ds);
  }

  /** A string starting with a digit has no white space or sign to skip. */
  lemma UnsignedStart(s: string)
    requires s != [] && IsDecimalDigit(s[0])
    ensures ParseIntString(s) == ParseUnsigned(s)
  {
    assert !Text.IsWhite(s[0]);
    assert Text.TrimStart(s) == s;
  }

  /** The unsigned part of decimal digits is their value. */
  lemma UnsignedDecimal(ds: string)
    requires ds != [] && forall i :: 0 <= i < |ds| ==> IsDecimalDigit(ds[i])
    ensures ParseUnsigned(ds) == Num(DigitsValue(ds, false))
  {
    var hex := |ds| >= 2 && ds[0] == '0' && (ds[1] == 'x' || ds[1] == 'X');
    assert !hex by {
      if |ds| >= 2 {
        assert IsDecimalDigit(ds[1]);
      }
    }
    DecimalPrefixIsAll(ds);
  }

  lemma DecimalPrefixIsAll(ds: string)
    requires forall i :: 0 <= i < |ds| ==> IsDecimalDigit(ds[i])
    ensures DigitPrefix(ds, false) == ds
  {
    var r := DigitPrefix(ds, false);
    if |r| < |ds| {
      assert false;
    }
  }

  /** `Math.round(n / d)` on non-negative integers, and the rounding
      `toFixed` does at the last digit: the nearest integer, halves up. */
  function RoundHalfUp(n: nat, d: nat): (r: nat)
    requires d > 0
    ensures 2 * d * r <= 2 * n + d < 2 * d * (r + 1)
  {
    var q := (2 * n + d) / (2 * d);
    QuotientBounds(2 * n + d, 2 * d);
    q
  }

  lemma QuotientBounds(n: nat, d: nat)
    requires d > 0
    ensures d * (n / d) <= n < d * (n / d) + d
  {
    var q, m := n / d, n % d;
    assert n == d * q + m;
  }

  /** A ratio of at most `k` rounds to at most `k`. */
  lemma {:induction false} RoundHalfUpAtMost(n: nat, d: nat, k: nat)
    requires d > 0
    ensures n <= d * k ==> RoundHalfUp(n, d) <= k
  {
    var r := RoundHalfUp(n, d);
    if n <= d * k && r > k {
      MulMonotone(2 * d, k + 1, r);
      assert false;
    }
  }

  lemma MulMonotone(c: nat, a: nat, b: nat)
    requires a <= b
    ensures c * a <= c * b
  {
    var e := b - a;
    assert c * b == c * a + c * e;
  }
}
