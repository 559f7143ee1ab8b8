/**
 * Integer coercion for code-point labels and `defaultChar`: bare decimal
 * digits, `0x`/`0X` hexadecimal and `0o`/`0O` octal.
 */
module CodePoints {
  import opened Wrappers
  import opened Js

  predicate IsHexPrefixed(s: JsString) {
    |s| > 2 && s[0] == '0' as int && (s[1] == 'x' as int || s[1] == 'X' as int) && AllDigits(s[2..], 16)
  }

  /** The octal pattern admits the digit 8 (class [0-8]), which `parseInt(_, 8)` stops at. */
  predicate IsOctalPrefixed(s: JsString) {
    |s| > 2 && s[0] == '0' as int && (s[1] == 'o' as int || s[1] == 'O' as int) && AllDigits(s[2..], 9)
  }

  /**
   * `codePointValue`: the first of the three patterns that matches decides the
   * radix; a string matching none is rejected. An octal body that starts with
   * 8 reads as NaN, and one containing 8 reads up to it.
   */
  function CodePointValue(s: JsString): (r: Option<Number>)
    ensures r.Some? ==> |s| > 0 && IsDigit(s[0])
    ensures r.Some? && r.value.NaN? ==> IsOctalPrefixed(s) && s[2] == '8' as int
    ensures r.None? <==> !((|s| > 0 && AllDigits(s, 10)) || IsHexPrefixed(s) || IsOctalPrefixed(s))
  {
    if |s| > 0 && AllDigits(s, 10) then
      assert DigitValue(s[0]) < 10;
      Some(ParseInt(s, 10))
    else if IsHexPrefixed(s) then
      assert DigitValue(s[2..][0]) < 16;
      Some(ParseInt(s[2..], 16))
    else if IsOctalPrefixed(s) then
      assert s[2..][0] == s[2];
      Some(ParseInt(s[2..], 8))
    else None
  }

  /** The decimal rendering of any n >= 0 is read back as n. */
  lemma DecimalRoundTrip(n: nat)
    ensures CodePointValue(DecimalString(n)) == Some(FromInt(n))
  {
    ParseIntDigits(DecimalString(n), 10);
    DecimalStringValue(n);
  }

  /** The `0x` hexadecimal rendering of any n >= 0 is read back as n. */
  lemma HexRoundTrip(n: nat)
    ensures CodePointValue(Lit("0x") + HexString(n)) == Some(FromInt(n))
  {
    var s := Lit("0x") + HexString(n);
    assert s[2..] == HexString(n);
    assert !IsDigit(s[1]);
    assert !AllDigits(s, 10) by { assert DigitValue(s[1]) >= 10; }
    ParseIntDigits(HexString(n), 16);
    HexStringValue(n);
  }

  /** Hexadecimal digits may be of either case, after either `0x` or `0X`. */
  lemma HexEitherCase(digits: JsString, upperX: bool)
    requires |digits| > 0 && AllDigits(digits, 16)
    ensures CodePointValue([('0' as int), if upperX then 'X' as int else 'x' as int] + digits)
         == Some(FromInt(DigitsValue(digits, 16)))
  {
    var s := [('0' as int), if upperX then 'X' as int else 'x' as int] + digits;
    assert s[2..] == digits;
    assert DigitValue(s[1]) >= 10;
    ParseIntDigits(digits, 16);
  }

  /** An octal body of digits 0-7 is read in base 8. */
  lemma OctalValue(digits: JsString, upperO: bool)
    requires |digits| > 0 && AllDigits(digits, 8)
    ensures CodePointValue([('0' as int), if upperO then 'O' as int else 'o' as int] + digits)
         == Some(FromInt(DigitsValue(digits, 8)))
  {
    var s := [('0' as int), if upperO then 'O' as int else 'o' as int] + digits;
    assert s[2..] == digits;
    assert DigitValue(s[1]) >= 10;
    assert !IsHexPrefixed(s);
    ParseIntDigits(digits, 8);
  }

  /** Any non-empty string of decimal digits, leading zeros included, is read in base 10. */
  lemma DecimalValue(digits: JsString)
    requires |digits| > 0 && AllDigits(digits, 10)
    ensures CodePointValue(digits) == Some(FromInt(DigitsValue(digits, 10)))
  {
    ParseIntDigits(digits, 10);
  }

  /**
   * The pattern admits 8 but `parseInt(_, 8)` stops at the first one: the
   * value is that of the octal digits before it, or NaN when there are none.
   */
  lemma {:induction false} OctalStopsAtFirstEight(s: JsString, prefix: JsString, digits: JsString, rest: JsString)
    requires prefix == ['0' as int, 'o' as int] || prefix == ['0' as int, 'O' as int]
    requires AllDigits(digits, 8) && AllDigits(rest, 9)
    requires s == prefix + digits + ['8' as int] + rest
    ensures CodePointValue(s) == Some(if |digits| > 0 then FromInt(DigitsValue(digits, 8)) else NaN)
  {
    var body := digits + (['8' as int] + rest);
    assert s == prefix + body by { assert prefix + digits + ['8' as int] + rest == prefix + (digits + (['8' as int] + rest)); }
    OctalBodyDigits(digits, rest, body);
    OctalPrefixed(s, prefix, body);
    OctalReading(digits, rest, body);
  }

  lemma {:induction false} OctalBodyDigits(digits: JsString, rest: JsString, body: JsString)
    requires AllDigits(digits, 8) && AllDigits(rest, 9)
    requires body == digits + (['8' as int] + rest)
    ensures AllDigits(body, 9)
  {
    forall i | 0 <= i < |body| ensures DigitValue(body[i]) < 9 {
      if i > |digits| { assert body[i] == rest[i - |digits| - 1]; }
    }
  }

  /** A string `0o` or `0O` followed by digits 0-8 is read as its body in base 8. */
  lemma {:induction false} OctalPrefixed(s: JsString, prefix: JsString, body: JsString)
    requires prefix == ['0' as int, 'o' as int] || prefix == ['0' as int, 'O' as int]
    requires |body| > 0 && AllDigits(body, 9)
    requires s == prefix + body
    ensures CodePointValue(s) == Some(ParseInt(body, 8))
  {
    assert s[2..] == body;
    assert DigitValue(s[1]) >= 10;
  }

  lemma {:induction false} OctalReading(digits: JsString, rest: JsString, body: JsString)
    requires AllDigits(digits, 8)
    requires body == digits + (['8' as int] + rest)
    ensures ParseInt(body, 8) == if |digits| > 0 then FromInt(DigitsValue(digits, 8)) else NaN
  {
    DigitRunStops(digits, ['8' as int] + rest, 8);
    assert SignStripped(body) == body by { assert IsDigit(body[0]); }
    if |digits| > 0 {
      assert body[..|digits|] == digits;
      ParseIntUnsigned(body, 8, |digits|);
    }
  }

  /** The digit 8 ends the octal reading: `0o18` is 1 and `0o8` is NaN. */
  lemma OctalStopsAtEight()
    ensures CodePointValue(Lit("0o18")) == Some(FromInt(1))
    ensures CodePointValue(Lit("0o8")) == Some(NaN)
  {
    OctalOneEight(Lit("0o18"));
    OctalEight(Lit("0o8"));
  }

  lemma OctalOneEight(a: JsString)
    requires a == Lit("0o18")
    ensures CodePointValue(a) == Some(FromInt(1))
  {
    assert a == [48, 111, 49, 56];
    assert a[2..] == [49] + [56];
    assert IsOctalPrefixed(a) && !IsHexPrefixed(a) && DigitValue(a[1]) >= 10;
    DigitRunStops([49], [56], 8);
    assert ([49] + [56])[..1] == [49];
    assert DigitsValue([49], 8) == 1 by { assert [49][..0] == []; }
  }

  lemma OctalEight(b: JsString)
    requires b == Lit("0o8")
    ensures CodePointValue(b) == Some(NaN)
  {
    assert b == [48, 111, 56];
    assert b[2..] == [56];
    assert IsOctalPrefixed(b) && !IsHexPrefixed(b) && DigitValue(b[1]) >= 10;
  }
}
