/** Option and Result, the two failure-carrying wrappers used throughout the model. */
module Wrappers {
  datatype Option<+T> = None | Some(value: T) {
    function GetOr(otherwise: T): T {
      match this
      case Some(v) => v
      case None => otherwise
    }
  }

  datatype Result<+T, +E> = Success(value: T) | Failure(error: E)
}

/**
 * The JavaScript primitives the font loader relies on: strings as sequences of
 * UTF-16 code units, numbers (with NaN), and the built-in conversions
 * `parseInt`, `parseFloat` and `String.fromCharCode` (ToUint16).
 */
module Js {
  /** A UTF-16 code unit; JavaScript strings are sequences of these. */
  type Unit = c: int | 0 <= c < 0x1_0000
  type JsString = seq<Unit>
  type Byte = b: int | 0 <= b < 0x100

  /**
   * A JavaScript number. Finite values are exact reals: the rounding of
   * IEEE-754 doubles is not modelled.
   */
  datatype Number = NaN | Num(v: real)

  /** The code units of an ASCII literal (every literal used here is ASCII). */
  function Lit(s: string): (r: JsString)
    ensures |r| == |s|
  {
    seq(|s|, i requires 0 <= i < |s| => if s[i] as int < 0x1_0000 then s[i] as int else 0)
  }

  predicate IsDigit(u: int) { '0' as int <= u <= '9' as int }
  predicate IsLower(u: int) { 'a' as int <= u <= 'z' as int }
  predicate IsUpper(u: int) { 'A' as int <= u <= 'Z' as int }

  /** `toLowerCase` on one code unit; only ASCII input reaches it in this core. */
  function ToLower(u: Unit): (r: Unit)
    ensures !IsUpper(r)
    ensures IsUpper(u) ==> IsLower(r)
    ensures !IsUpper(u) ==> r == u
  {
    if IsUpper(u) then u + 32 else u
  }

  /** `toUpperCase` on one code unit; only ASCII input reaches it in this core. */
  function ToUpper(u: Unit): (r: Unit)
    ensures !IsLower(r)
    ensures IsLower(u) ==> IsUpper(r)
    ensures !IsLower(u) ==> r == u
  {
    if IsLower(u) then u - 32 else u
  }

  function UpperAll(s: JsString): (r: JsString)
    ensures |r| == |s| && forall i :: 0 <= i < |s| ==> r[i] == ToUpper(s[i])
  {
    seq(|s|, i requires 0 <= i < |s| => ToUpper(s[i]))
  }

  /** The value of a code unit as a digit in radix 36; 36 for a non-digit. */
  function DigitValue(u: Unit): (d: nat)
    ensures d <= 36
    ensures d < 10 <==> IsDigit(u)
    ensures d == 36 <==> !(IsDigit(u) || IsLower(u) || IsUpper(u))
  {
    if IsDigit(u) then u - '0' as int
    else if IsLower(u) then u - 'a' as int + 10
    else if IsUpper(u) then u - 'A' as int + 10
    else 36
  }

  /** Every unit of `s` is a digit of `radix` (the regex class [0-9A-F] with /i is radix 16). */
  predicate AllDigits(s: JsString, radix: nat) {
    forall i :: 0 <= i < |s| ==> DigitValue(s[i]) < radix
  }

  /** The length of the longest prefix of `s` made of digits of `radix`. */
  function DigitRun(s: JsString, radix: nat): (n: nat)
    ensures n <= |s|
    ensures AllDigits(s[..n], radix)
    ensures n < |s| ==> DigitValue(s[n]) >= radix
  {
    if s == [] || DigitValue(s[0]) >= radix then 0
    else
      var n := 1 + DigitRun(s[1..], radix);
      assert s[..n] == [s[0]] + s[1..][..n - 1];
      n
  }

  /** The value of a digit string, most significant digit first. */
  function DigitsValue(s: JsString, radix: nat): nat
  {
    if s == [] then 0 else DigitsValue(s[..|s| - 1], radix) * radix + DigitValue(s[|s| - 1])
  }

  /**
   * `parseInt(s, radix)`: an optional sign, then the longest prefix of digits of
   * the radix; NaN when that prefix is empty. Two steps of JavaScript's
   * `parseInt` are not modelled, because no caller in this core can reach them:
   * stripping leading white space, and stripping a `0x`/`0X` prefix when the
   * radix is 16 (every base-16 caller passes hex digits, at most with a sign
   * in front or a quote behind, so no `0x` prefix ever reaches it).
   */
  function ParseInt(s: JsString, radix: nat): (r: Number)
    requires 2 <= radix <= 36
    ensures r.NaN? <==> DigitRun(SignStripped(s), radix) == 0
  {
    var t := SignStripped(s);
    var n := DigitRun(t, radix);
    if n == 0 then NaN
    else
      var magnitude := DigitsValue(t[..n], radix) as real;
      Num(if |s| > 0 && s[0] == '-' as int then -magnitude else magnitude)
  }

  /** `s` without one leading `+` or `-`. */
  function SignStripped(s: JsString): (t: JsString)
    ensures |t| <= |s|
  {
    if |s| > 0 && (s[0] == '-' as int || s[0] == '+' as int) then s[1..] else s
  }

  function Pow10(k: nat): (p: nat)
    ensures p >= 1
  {
    if k == 0 then 1 else 10 * Pow10(k - 1)
  }

  /**
   * `parseFloat(s)` for strings without an exponent or `Infinity`: an optional
   * sign, then the longest prefix of the form `digits[.digits]` or `.digits`;
   * NaN when there is none. The value is exact (no rounding to a double).
   */
  function ParseFloat(s: JsString): (r: Number)
  {
    var t := SignStripped(s);
    var i := DigitRun(t, 10);
    var hasPoint := i < |t| && t[i] == '.' as int;
    var j := if hasPoint then DigitRun(t[i + 1..], 10) else 0;
    var fraction := if hasPoint then t[i + 1..][..j] else [];
    if i == 0 && j == 0 then NaN
    else
      var magnitude := DecimalMagnitude(t[..i], fraction);
      Num(if |s| > 0 && s[0] == '-' as int then -magnitude else magnitude)
  }

  /** The exact value of `whole.fraction` written in decimal. */
  function DecimalMagnitude(whole: JsString, fraction: JsString): real
  {
    if fraction == [] then DigitsValue(whole, 10) as real
    else DigitsValue(whole, 10) as real + DigitsValue(fraction, 10) as real / Pow10(|fraction|) as real
  }

  /** ToUint16, as applied by `String.fromCharCode`: truncate toward zero, then wrap modulo 2^16. */
  function ToUint16(n: Number): (u: Unit)
    ensures n.Num? && n.v == n.v.Floor as real && 0 <= n.v.Floor < 0x1_0000 ==> u == n.v.Floor
  {
    match n
    case NaN => 0
    case Num(v) => (if v >= 0.0 then v.Floor else -((-v).Floor)) % 0x1_0000
  }

  /** Every value, as a JavaScript number: integers are exact. */
  function FromInt(n: int): Number { Num(n as real) }

  /** The decimal rendering of a natural number (what `String(n)` gives). */
  function DecimalString(n: nat): (s: JsString)
    ensures |s| > 0 && AllDigits(s, 10)
    decreases n
  {
    if n < 10 then ['0' as int + n] else DecimalString(n / 10) + ['0' as int + n % 10]
  }

  /** The upper-case hexadecimal rendering of a natural number (`n.toString(16).toUpperCase()`). */
  function HexString(n: nat): (s: JsString)
    ensures |s| > 0 && AllDigits(s, 16)
    decreases n
  {
    if n < 16 then [HexDigit(n)] else HexString(n / 16) + [HexDigit(n % 16)]
  }

  function HexDigit(d: nat): (u: Unit)
    requires d < 16
    ensures DigitValue(u) == d && !IsLower(u)
  {
    if d < 10 then '0' as int + d else 'A' as int + d - 10
  }

  /** Appending one digit multiplies the value so far by the radix and adds the digit. */
  lemma DigitsValueAppend(s: JsString, u: Unit, radix: nat)
    ensures DigitsValue(s + [u], radix) == DigitsValue(s, radix) * radix + DigitValue(u)
  {
    assert (s + [u])[..|s + [u]| - 1] == s;
  }

  /** A whole digit string is its own longest digit prefix. */
  lemma {:induction false} DigitRunAll(s: JsString, radix: nat)
    requires AllDigits(s, radix)
    ensures DigitRun(s, radix) == |s|
  {
    if s != [] {
      DigitRunAll(s[1..], radix);
    }
  }

  /** A digit string followed by a non-digit: the run stops exactly at the non-digit. */
  lemma {:induction false} DigitRunStops(s: JsString, rest: JsString, radix: nat)
    requires AllDigits(s, radix)
    requires rest != [] && DigitValue(rest[0]) >= radix
    ensures DigitRun(s + rest, radix) == |s|
  {
    if s != [] {
      assert (s + rest)[1..] == s[1..] + rest;
      DigitRunStops(s[1..], rest, radix);
    } else {
      assert s + rest == rest;
    }
  }

  /** `parseInt` of an unsigned digit string is the string's digit value. */
  lemma ParseIntDigits(s: JsString, radix: nat)
    requires 2 <= radix <= 36
    requires |s| > 0 && AllDigits(s, radix)
    ensures ParseInt(s, radix) == FromInt(DigitsValue(s, radix))
  {
    assert DigitValue(s[0]) < radix;
    assert SignStripped(s) == s;
    DigitRunAll(s, radix);
    assert s[..|s|] == s;
  }

  lemma UpperAllAppend(a: JsString, b: JsString)
    ensures UpperAll(a + b) == UpperAll(a) + UpperAll(b)
  {
    var l, r := UpperAll(a + b), UpperAll(a) + UpperAll(b);
    forall i | 0 <= i < |l| ensures l[i] == r[i] {
      if i < |a| {
        assert (a + b)[i] == a[i];
      } else {
        assert (a + b)[i] == b[i - |a|];
      }
    }
  }

  /** Without a minus sign, `parseInt` reads the digit run after an optional `+`. */
  lemma ParseIntUnsigned(s: JsString, radix: nat, n: nat)
    requires 2 <= radix <= 36
    requires 0 < n == DigitRun(SignStripped(s), radix)
    requires !(|s| > 0 && s[0] == '-' as int)
    ensures ParseInt(s, radix) == FromInt(DigitsValue(SignStripped(s)[..n], radix))
  {
  }

  /** Upper-casing a digit string keeps every digit's value. */
  lemma UpperKeepsValue(s: JsString, radix: nat)
    requires AllDigits(s, radix)
    ensures AllDigits(UpperAll(s), radix)
    ensures DigitsValue(UpperAll(s), radix) == DigitsValue(s, radix)
  {
    var t := UpperAll(s);
    forall i | 0 <= i < |s| ensures DigitValue(t[i]) == DigitValue(s[i]) {
      UpperDigitValue(s[i]);
    }
    SameDigitsSameValue(t, s, radix);
  }

  /** Upper-casing a unit keeps its digit value. */
  lemma UpperDigitValue(u: Unit)
    ensures DigitValue(ToUpper(u)) == DigitValue(u)
  {
  }

  /** Strings whose units have the same digit values have the same value. */
  lemma {:induction false} SameDigitsSameValue(s: JsString, t: JsString, radix: nat)
    requires |s| == |t| && forall i :: 0 <= i < |s| ==> DigitValue(s[i]) == DigitValue(t[i])
    ensures DigitsValue(s, radix) == DigitsValue(t, radix)
  {
    if s != [] {
      var n := |s| - 1;
      assert forall i :: 0 <= i < n ==> s[..n][i] == s[i] && t[..n][i] == t[i];
      SameDigitsSameValue(s[..n], t[..n], radix);
    }
  }

  /** Rendering a number in decimal and reading it back gives the number. */
  lemma {:induction false} DecimalStringValue(n: nat)
    ensures DigitsValue(DecimalString(n), 10) == n
    decreases n
  {
    if n >= 10 {
      DecimalStringValue(n / 10);
      DigitsValueAppend(DecimalString(n / 10), '0' as int + n % 10, 10);
    }
  }

  /** Rendering a number in hexadecimal and reading it back gives the number. */
  lemma {:induction false} HexStringValue(n: nat)
    ensures DigitsValue(HexString(n), 16) == n
    decreases n
  {
    if n >= 16 {
      HexStringValue(n / 16);
      DigitsValueAppend(HexString(n / 16), HexDigit(n % 16), 16);
    }
  }

  /** An unsigned decimal integer: `parseFloat` reads it back exactly. */
  lemma ParseFloatDigits(digits: JsString)
    requires |digits| > 0 && AllDigits(digits, 10)
    ensures ParseFloat(digits) == FromInt(DigitsValue(digits, 10))
  {
    assert DigitValue(digits[0]) < 10;
    assert SignStripped(digits) == digits;
    DigitRunAll(digits, 10);
    assert digits[..|digits|] == digits;
    assert DecimalMagnitude(digits, []) == DigitsValue(digits, 10) as real;
  }

  /** A decimal integer after a minus sign: `parseFloat` reads its negation exactly. */
  lemma ParseFloatNegative(s: JsString, digits: JsString)
    requires |digits| > 0 && AllDigits(digits, 10)
    requires s == ['-' as int] + digits
    ensures ParseFloat(s) == FromInt(-(DigitsValue(digits, 10) as int))
  {
    assert DigitValue(digits[0]) < 10;
    assert s[0] == '-' as int && s[1..] == digits;
    assert SignStripped(s) == digits;
    DigitRunAll(digits, 10);
    assert digits[..|digits|] == digits;
    assert DecimalMagnitude(digits, []) == DigitsValue(digits, 10) as real;
  }
}
