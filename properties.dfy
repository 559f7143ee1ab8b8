/**
 * Property entries: key normalisation (character check, `_` to `-`,
 * lower-casing, camel-casing), value coercion (a value made only of digits,
 * `.` and `-` becomes a number), folding into one object, and validation
 * against the font-level and glyph-level property schemas.
 */
module Properties {
  import opened Wrappers
  import opened Js
  import opened ParseTree
  import CodePoints

  /** A property value after coercion. */
  datatype PropValue = PText(s: JsString) | PNumber(n: Number)

  /** The key pattern `^[0-9A-z\-_.]+$`; the range A-z also takes in `[`, `\`, `]`, `^`, `_` and the backquote. */
  predicate IsKeyUnit(u: Unit) {
    IsDigit(u) || ('A' as int <= u <= 'z' as int) || u == '-' as int || u == '_' as int || u == '.' as int
  }

  predicate IsKey(key: JsString) {
    |key| > 0 && forall i :: 0 <= i < |key| ==> IsKeyUnit(key[i])
  }

  /** `replaceAll(/_/g, '-').toLowerCase()`. */
  function NormalizeKey(key: JsString): (r: JsString)
    ensures |r| == |key|
    ensures forall i :: 0 <= i < |r| ==> r[i] != '_' as int && !IsUpper(r[i])
    ensures forall i :: 0 <= i < |r| ==> key[i] != '_' as int && !IsUpper(key[i]) ==> r[i] == key[i]
    ensures forall i :: 0 <= i < |r| ==> key[i] == '_' as int ==> r[i] == '-' as int
    ensures forall i :: 0 <= i < |r| ==> IsUpper(key[i]) ==> r[i] == key[i] + ('a' as int - 'A' as int)
  {
    seq(|key|, i requires 0 <= i < |key| => ToLower(if key[i] == '_' as int then '-' as int else key[i]))
  }

  datatype UnitKind = Separator | Letter | Digit

  function KindOf(u: Unit): UnitKind {
    if IsLower(u) || IsUpper(u) then Letter else if IsDigit(u) then Digit else Separator
  }

  /**
   * Camel-casing of a normalised key: words are maximal runs of letters or of
   * digits and every other unit separates them; the first word is kept and
   * each later word has its first letter upper-cased. `previous` is the kind
   * of the unit before `s`, `started` whether a word has been emitted yet.
   */
  function CamelFrom(s: JsString, previous: UnitKind, started: bool): (r: JsString)
    ensures |r| <= |s|
    ensures forall i :: 0 <= i < |r| ==> KindOf(r[i]) != Separator
  {
    if s == [] then []
    else
      var kind := KindOf(s[0]);
      if kind == Separator then CamelFrom(s[1..], Separator, started)
      else if kind == previous then [s[0]] + CamelFrom(s[1..], kind, started)
      else [if started then ToUpper(s[0]) else s[0]] + CamelFrom(s[1..], kind, true)
  }

  /** `toCamelCase` applied to an already lower-cased key. */
  function CamelCase(s: JsString): (r: JsString)
    ensures forall i :: 0 <= i < |r| ==> IsLower(r[i]) || IsUpper(r[i]) || IsDigit(r[i])
  {
    CamelFrom(s, Separator, false)
  }

  predicate IsNumericUnit(u: Unit) {
    IsDigit(u) || u == '.' as int || u == '-' as int
  }

  /** A value made only of digits, `.` and `-` (the empty value included) is read with `parseFloat`. */
  function Coerce(val: JsString): (r: PropValue)
    ensures r.PText? <==> exists i :: 0 <= i < |val| && !IsNumericUnit(val[i])
    ensures r.PText? ==> r.s == val
  {
    if forall i :: 0 <= i < |val| ==> IsNumericUnit(val[i]) then PNumber(ParseFloat(val)) else PText(val)
  }

  /** `propertyParser`: a `[key, value]` pair, or None when the key or the value is not acceptable. */
  function ParseProperty(key: RawText, val: RawText): (r: Option<(JsString, PropValue)>)
    ensures r.Some? <==> key.Text? && IsKey(key.s) && val.Text?
    ensures r.Some? ==> forall i :: 0 <= i < |r.value.0| ==> KindOf(r.value.0[i]) != Separator
    ensures r.Some? ==> r.value == (CamelCase(NormalizeKey(key.s)), Coerce(val.s))
  {
    if key.Text? && IsKey(key.s) && val.Text? then Some((CamelCase(NormalizeKey(key.s)), Coerce(val.s)))
    else None
  }

  /** `Object.fromEntries`: pairs are entered in order, so a later pair overwrites an earlier one with the same key. */
  function FromEntries(pairs: seq<(JsString, PropValue)>): map<JsString, PropValue>
  {
    if pairs == [] then map[] else FromEntries(pairs[..|pairs| - 1])[pairs[|pairs| - 1].0 := pairs[|pairs| - 1].1]
  }

  /** No later pair has the same key as pair i. */
  ghost predicate LastWithKey(pairs: seq<(JsString, PropValue)>, i: int)
    requires 0 <= i < |pairs|
  {
    forall j :: i < j < |pairs| ==> pairs[j].0 != pairs[i].0
  }

  /** Every key of the folded object comes from some pair, and holds the value of the last pair with that key. */
  lemma FromEntriesLastWins(pairs: seq<(JsString, PropValue)>)
    ensures forall k :: k in FromEntries(pairs) ==> exists i :: 0 <= i < |pairs| && pairs[i].0 == k
    ensures forall i :: 0 <= i < |pairs| && LastWithKey(pairs, i) ==>
              pairs[i].0 in FromEntries(pairs) && FromEntries(pairs)[pairs[i].0] == pairs[i].1
  {
    forall k | k in FromEntries(pairs) ensures exists i :: 0 <= i < |pairs| && pairs[i].0 == k {
      FromEntriesKey(pairs, k);
    }
    forall i | 0 <= i < |pairs| && LastWithKey(pairs, i)
      ensures pairs[i].0 in FromEntries(pairs) && FromEntries(pairs)[pairs[i].0] == pairs[i].1
    {
      FromEntriesLast(pairs, i);
    }
  }

  lemma {:induction false} FromEntriesKey(pairs: seq<(JsString, PropValue)>, k: JsString)
    requires k in FromEntries(pairs)
    ensures exists i :: 0 <= i < |pairs| && pairs[i].0 == k
  {
    var n := |pairs| - 1;
    if k != pairs[n].0 {
      FromEntriesKey(pairs[..n], k);
      var i :| 0 <= i < n && pairs[..n][i].0 == k;
      assert pairs[i].0 == k;
    }
  }

  lemma {:induction false} FromEntriesLast(pairs: seq<(JsString, PropValue)>, i: nat)
    requires i < |pairs| && LastWithKey(pairs, i)
    ensures pairs[i].0 in FromEntries(pairs) && FromEntries(pairs)[pairs[i].0] == pairs[i].1
  {
    var n := |pairs| - 1;
    if i < n {
      var front := pairs[..n];
      assert front[i] == pairs[i];
      assert LastWithKey(front, i) by {
        forall j | i < j < n ensures front[j].0 != front[i].0 { assert front[j] == pairs[j]; }
      }
      FromEntriesLast(front, i);
    }
  }

  // ---- Font-level properties (fontUsableProperties) ----

  datatype Spacing = CharacterCell | Monospace | Proportional | MultiCell
  datatype Dpi = DpiNumber(v: real) | DpiText(s: JsString)

  /** An accepted `defaultChar`: a code (from a code-point string or a `U+hex` escape) or one of two keywords. */
  datatype DefaultChar = CharCode(code: Number) | DefaultKeyword | MissingKeyword

  datatype FontProperties = FontProperties(
    name: Option<JsString>,
    spacing: Option<Spacing>,
    encoding: Option<JsString>,
    converter: Option<JsString>,
    sourceFormat: Option<JsString>,
    cellSize: Option<JsString>,
    boundingBox: Option<JsString>,
    rasterSize: Option<JsString>,
    sourceName: Option<JsString>,
    shiftUp: Option<real>,
    pointSize: Option<real>,
    ascent: Option<real>,
    family: Option<JsString>,
    dpi: Option<Dpi>,
    defaultChar: Option<DefaultChar>)

  /** `z.string()`. */
  function AsString(v: PropValue): Option<JsString> {
    if v.PText? then Some(v.s) else None
  }

  /** `z.number()`, which refuses NaN. */
  function AsNumber(v: PropValue): (r: Option<real>)
    ensures r.Some? <==> v.PNumber? && v.n.Num?
    ensures r.Some? ==> v == PNumber(Num(r.value))
  {
    if v.PNumber? && v.n.Num? then Some(v.n.v) else None
  }

  /** `spacingOptions`, the four-value enum. */
  function AsSpacing(v: PropValue): (r: Option<Spacing>)
    ensures r.Some? <==> v in {PText(Lit("character-cell")), PText(Lit("monospace")), PText(Lit("proportional")), PText(Lit("multi-cell"))}
    ensures r == Some(CharacterCell) <==> v == PText(Lit("character-cell"))
    ensures r == Some(Monospace) <==> v == PText(Lit("monospace"))
    ensures r == Some(Proportional) <==> v == PText(Lit("proportional"))
    ensures r == Some(MultiCell) <==> v == PText(Lit("multi-cell"))
  {
    if v == PText(Lit("character-cell")) then Some(CharacterCell)
    else if v == PText(Lit("monospace")) then Some(Monospace)
    else if v == PText(Lit("proportional")) then Some(Proportional)
    else if v == PText(Lit("multi-cell")) then Some(MultiCell)
    else None
  }

  /** `z.number().or(z.string())`. */
  function AsDpi(v: PropValue): (r: Option<Dpi>)
    ensures r.None? <==> v == PNumber(NaN)
    ensures v.PText? ==> r == Some(DpiText(v.s))
    ensures v.PNumber? && v.n.Num? ==> r == Some(DpiNumber(v.n.v))
  {
    match v
    case PText(s) => Some(DpiText(s))
    case PNumber(Num(x)) => Some(DpiNumber(x))
    case PNumber(NaN) => None
  }

  /** The escape pattern `^"?[uU]\+[0-9A-F]+"?$` with the /i flag. */
  predicate IsQuotedEscape(s: JsString) {
    var a := if |s| > 0 && s[0] == '"' as int then 1 else 0;
    var b := if |s| > a && s[|s| - 1] == '"' as int then |s| - 1 else |s|;
    a + 2 < b && (s[a] == 'u' as int || s[a] == 'U' as int) && s[a + 1] == '+' as int && AllDigits(s[a + 2..b], 16)
  }

  /** `replace(/'"/g, '')`: every two-unit sequence `'"` is removed. */
  function RemoveQuotePairs(s: JsString): (r: JsString)
    ensures |r| <= |s|
  {
    if |s| >= 2 && s[0] == '\'' as int && s[1] == '"' as int then RemoveQuotePairs(s[2..])
    else if s == [] then []
    else [s[0]] + RemoveQuotePairs(s[1..])
  }

  /** `substring(2)`. */
  function Substring2(s: JsString): JsString {
    if |s| >= 2 then s[2..] else []
  }

  /** `defaultCharOptions`: a code-point string, else a `U+hex` escape, else `default` or `missing`. */
  function AsDefaultChar(v: PropValue): (r: Option<DefaultChar>)
    ensures v.PNumber? ==> r.None?
    ensures v.PText? && CodePoints.CodePointValue(v.s).Some? ==> r == Some(CharCode(CodePoints.CodePointValue(v.s).value))
    ensures v.PText? && CodePoints.CodePointValue(v.s).None? && IsQuotedEscape(v.s) ==> r.Some? && r.value.CharCode?
    ensures r == Some(DefaultKeyword) <==> v == PText(Lit("default"))
    ensures r == Some(MissingKeyword) <==> v == PText(Lit("missing"))
    ensures r.None? <==> v.PNumber? || (CodePoints.CodePointValue(v.s).None? && !IsQuotedEscape(v.s)
                                        && v.s != Lit("default") && v.s != Lit("missing"))
  {
    match v
    case PNumber(_) => None
    case PText(s) =>
      match CodePoints.CodePointValue(s)
      case Some(n) => Some(CharCode(n))
      case None =>
        if IsQuotedEscape(s) then Some(CharCode(ParseInt(UpperAll(Substring2(RemoveQuotePairs(s))), 16)))
        else if s == Lit("default") then Some(DefaultKeyword)
        else if s == Lit("missing") then Some(MissingKeyword)
        else None
  }

  /** What a known key requires of its value. */
  datatype FieldKind = StringField | NumberField | SpacingField | DpiField | DefaultCharField

  function Accepts(kind: FieldKind, v: PropValue): bool {
    match kind
    case StringField => AsString(v).Some?
    case NumberField => AsNumber(v).Some?
    case SpacingField => AsSpacing(v).Some?
    case DpiField => AsDpi(v).Some?
    case DefaultCharField => AsDefaultChar(v).Some?
  }

  /** The known keys, in the order the schema declares them. */
  function FontKeys(): seq<(JsString, FieldKind)> {
    [(Lit("name"), StringField), (Lit("spacing"), SpacingField), (Lit("encoding"), StringField),
     (Lit("converter"), StringField), (Lit("sourceFormat"), StringField), (Lit("cellSize"), StringField),
     (Lit("boundingBox"), StringField), (Lit("rasterSize"), StringField), (Lit("sourceName"), StringField),
     (Lit("shiftUp"), NumberField), (Lit("pointSize"), NumberField), (Lit("ascent"), NumberField),
     (Lit("family"), StringField), (Lit("dpi"), DpiField), (Lit("defaultChar"), DefaultCharField)]
  }

  /** The keys among `keys` that are present in `m` with a value their kind refuses, in order. */
  function RefusedKeys(keys: seq<(JsString, FieldKind)>, m: map<JsString, PropValue>): (r: seq<JsString>)
    ensures forall k :: k in r <==> exists i :: 0 <= i < |keys| && keys[i].0 == k && k in m && !Accepts(keys[i].1, m[k])
  {
    if keys == [] then []
    else
      var rest := RefusedKeys(keys[1..], m);
      assert forall i :: 0 < i < |keys| ==> keys[i] == keys[1..][i - 1];
      if keys[0].0 in m && !Accepts(keys[0].1, m[keys[0].0]) then [keys[0].0] + rest else rest
  }

  function StringOf(m: map<JsString, PropValue>, key: JsString): Option<JsString> {
    if key in m then AsString(m[key]) else None
  }

  function NumberOf(m: map<JsString, PropValue>, key: JsString): Option<real> {
    if key in m then AsNumber(m[key]) else None
  }

  /**
   * `fontUsableProperties.parse`: unknown keys are dropped; a known key with a
   * value its schema refuses makes the whole load fail, naming every such key.
   */
  function ValidateFontProperties(m: map<JsString, PropValue>): (r: Result<FontProperties, seq<JsString>>)
    ensures r.Failure? <==> SomeKnownKeyRefused(m)
    ensures r.Failure? ==> |r.error| > 0 && r.error == RefusedKeys(FontKeys(), m)
    ensures r.Success? ==> r.value == Collect(m)
  {
    var refused := RefusedKeys(FontKeys(), m);
    assert |refused| > 0 <==> SomeKnownKeyRefused(m) by {
      if |refused| > 0 { assert refused[0] in refused; }
    }
    if |refused| > 0 then Failure(refused) else Success(Collect(m))
  }

  /** Some known key is present with a value its field refuses. */
  predicate SomeKnownKeyRefused(m: map<JsString, PropValue>) {
    exists i :: 0 <= i < |FontKeys()| && FontKeys()[i].0 in m && !Accepts(FontKeys()[i].1, m[FontKeys()[i].0])
  }

  /** The validated properties of an object every known key of which holds a value of its kind. */
  function Collect(m: map<JsString, PropValue>): FontProperties {
      var spacing := Lit("spacing");
      var dpi := Lit("dpi");
      var defaultChar := Lit("defaultChar");
      FontProperties(
        StringOf(m, Lit("name")),
        if spacing in m then AsSpacing(m[spacing]) else None,
        StringOf(m, Lit("encoding")),
        StringOf(m, Lit("converter")),
        StringOf(m, Lit("sourceFormat")),
        StringOf(m, Lit("cellSize")),
        StringOf(m, Lit("boundingBox")),
        StringOf(m, Lit("rasterSize")),
        StringOf(m, Lit("sourceName")),
        NumberOf(m, Lit("shiftUp")),
        NumberOf(m, Lit("pointSize")),
        NumberOf(m, Lit("ascent")),
        StringOf(m, Lit("family")),
        if dpi in m then AsDpi(m[dpi]) else None,
        if defaultChar in m then AsDefaultChar(m[defaultChar]) else None)
  }

  /** A `spacing` outside the four enum values is fatal, and the error names `spacing`. */
  lemma SpacingOutsideEnumFatal(m: map<JsString, PropValue>)
    requires Lit("spacing") in m && AsSpacing(m[Lit("spacing")]).None?
    ensures ValidateFontProperties(m).Failure? && Lit("spacing") in ValidateFontProperties(m).error
  {
    assert FontKeys()[1] == (Lit("spacing"), SpacingField);
  }

  /** A `defaultChar` that was coerced to a number matches none of its shapes: fatal. */
  lemma NumericDefaultCharFatal(m: map<JsString, PropValue>)
    requires Lit("defaultChar") in m && m[Lit("defaultChar")].PNumber?
    ensures ValidateFontProperties(m).Failure? && Lit("defaultChar") in ValidateFontProperties(m).error
  {
    DefaultCharKey();
  }

  lemma DefaultCharKey()
    ensures |FontKeys()| == 15 && FontKeys()[14] == (Lit("defaultChar"), DefaultCharField)
  {
  }

  /** A key the schema does not know never changes the outcome of validation. */
  lemma UnknownKeyIgnored(m: map<JsString, PropValue>, key: JsString, v: PropValue)
    requires forall i :: 0 <= i < |FontKeys()| ==> FontKeys()[i].0 != key
    ensures ValidateFontProperties(m[key := v]) == ValidateFontProperties(m)
  {
    RefusedKeysIgnore(FontKeys(), m, key, v);
    CollectIgnores(m, key, v);
  }

  lemma CollectIgnores(m: map<JsString, PropValue>, key: JsString, v: PropValue)
    requires forall i :: 0 <= i < |FontKeys()| ==> FontKeys()[i].0 != key
    ensures Collect(m[key := v]) == Collect(m)
  {
    NotAFontKey(key);
    Untouched(m, key, v, Lit("name"));
    Untouched(m, key, v, Lit("spacing"));
    Untouched(m, key, v, Lit("encoding"));
    Untouched(m, key, v, Lit("converter"));
    Untouched(m, key, v, Lit("sourceFormat"));
    Untouched(m, key, v, Lit("cellSize"));
    Untouched(m, key, v, Lit("boundingBox"));
    Untouched(m, key, v, Lit("rasterSize"));
    Untouched(m, key, v, Lit("sourceName"));
    Untouched(m, key, v, Lit("shiftUp"));
    Untouched(m, key, v, Lit("pointSize"));
    Untouched(m, key, v, Lit("ascent"));
    Untouched(m, key, v, Lit("family"));
    Untouched(m, key, v, Lit("dpi"));
    Untouched(m, key, v, Lit("defaultChar"));
  }

  /** Overwriting one key leaves what every other key reads unchanged. */
  lemma Untouched(m: map<JsString, PropValue>, key: JsString, v: PropValue, k: JsString)
    requires k != key
    ensures (k in m[key := v]) == (k in m) && (k in m ==> m[key := v][k] == m[k])
    ensures StringOf(m[key := v], k) == StringOf(m, k) && NumberOf(m[key := v], k) == NumberOf(m, k)
  {
  }

  lemma NotAFontKey(key: JsString)
    requires forall i :: 0 <= i < |FontKeys()| ==> FontKeys()[i].0 != key
    ensures key != Lit("name") && key != Lit("spacing") && key != Lit("encoding") && key != Lit("converter")
    ensures key != Lit("sourceFormat") && key != Lit("cellSize") && key != Lit("boundingBox") && key != Lit("rasterSize")
    ensures key != Lit("sourceName") && key != Lit("shiftUp") && key != Lit("pointSize") && key != Lit("ascent")
    ensures key != Lit("family") && key != Lit("dpi") && key != Lit("defaultChar")
  {
    var ks := FontKeys();
    assert ks[0].0 != key && ks[1].0 != key && ks[2].0 != key && ks[3].0 != key && ks[4].0 != key;
    assert ks[5].0 != key && ks[6].0 != key && ks[7].0 != key && ks[8].0 != key && ks[9].0 != key;
    assert ks[10].0 != key && ks[11].0 != key && ks[12].0 != key && ks[13].0 != key && ks[14].0 != key;
  }

  lemma {:induction false} RefusedKeysIgnore(keys: seq<(JsString, FieldKind)>, m: map<JsString, PropValue>, key: JsString, v: PropValue)
    requires forall i :: 0 <= i < |keys| ==> keys[i].0 != key
    ensures RefusedKeys(keys, m[key := v]) == RefusedKeys(keys, m)
  {
    if keys != [] {
      RefusedKeysIgnore(keys[1..], m, key, v);
    }
  }

  /** A value of digits with an optional leading minus becomes that integer. */
  lemma IntegerValueCoerced(val: JsString, digits: JsString, negative: bool)
    requires |digits| > 0 && AllDigits(digits, 10)
    requires val == (if negative then ['-' as int] else []) + digits
    ensures Coerce(val) == PNumber(FromInt(if negative then -(DigitsValue(digits, 10) as int) else DigitsValue(digits, 10)))
  {
    NumericLooking(val, digits, negative);
    if negative {
      NegativeIntegerCoerced(val, digits);
    } else {
      assert val == digits;
      ParseFloatDigits(digits);
    }
  }

  lemma NegativeIntegerCoerced(val: JsString, digits: JsString)
    requires |digits| > 0 && AllDigits(digits, 10)
    requires val == ['-' as int] + digits
    requires forall i :: 0 <= i < |val| ==> IsNumericUnit(val[i])
    ensures Coerce(val) == PNumber(FromInt(-(DigitsValue(digits, 10) as int)))
  {
    ParseFloatNegative(val, digits);
    NumericCoerced(val);
  }

  lemma NumericCoerced(val: JsString)
    requires forall i :: 0 <= i < |val| ==> IsNumericUnit(val[i])
    ensures Coerce(val) == PNumber(ParseFloat(val))
  {
  }

  lemma NumericLooking(val: JsString, digits: JsString, negative: bool)
    requires AllDigits(digits, 10)
    requires val == (if negative then ['-' as int] else []) + digits
    ensures forall i :: 0 <= i < |val| ==> IsNumericUnit(val[i])
  {
    forall i | 0 <= i < |val| ensures IsNumericUnit(val[i]) {
      if negative && i > 0 {
        assert val[i] == digits[i - 1];
        assert DigitValue(digits[i - 1]) < 10;
      }
      if !negative {
        assert val[i] == digits[i];
        assert DigitValue(digits[i]) < 10;
      }
    }
  }

  /** An empty value is numeric-looking and reads as NaN. */
  lemma EmptyValueIsNaN()
    ensures Coerce([]) == PNumber(NaN)
  {
  }

  /** A non-empty word of lower-case letters. */
  predicate IsLowerWord(w: JsString) {
    |w| > 0 && forall i :: 0 <= i < |w| ==> IsLower(w[i])
  }

  /** Lower-case letters after a letter are copied as they are. */
  lemma {:induction false} CamelWord(w: JsString, rest: JsString)
    requires forall i :: 0 <= i < |w| ==> IsLower(w[i])
    ensures CamelFrom(w + rest, Letter, true) == w + CamelFrom(rest, Letter, true)
  {
    if w == [] {
      assert w + rest == rest;
    } else {
      assert (w + rest)[1..] == w[1..] + rest;
      CamelWord(w[1..], rest);
    }
  }

  /** A key with no `_` and no upper-case letter is already normalised. */
  lemma NormalizedKeyKept(key: JsString)
    requires forall i :: 0 <= i < |key| ==> key[i] != '_' as int && !IsUpper(key[i])
    ensures NormalizeKey(key) == key
  {
  }

  /** Two lower-case words joined by `-` are already normalised. */
  lemma HyphenatedNormalized(a: JsString, b: JsString)
    requires IsLowerWord(a) && IsLowerWord(b)
    ensures NormalizeKey(a + ['-' as int] + b) == a + ['-' as int] + b
  {
    var s := a + ['-' as int] + b;
    forall i | 0 <= i < |s| ensures s[i] != '_' as int && !IsUpper(s[i]) {
      if i < |a| {
        assert s[i] == a[i];
      } else if i > |a| {
        assert s[i] == b[i - |a| - 1];
      }
    }
    NormalizedKeyKept(s);
  }

  /** `word-word` camel-cases to the first word followed by the capitalised second. */
  lemma HyphenatedCamel(a: JsString, b: JsString)
    requires IsLowerWord(a) && IsLowerWord(b)
    ensures CamelCase(a + ['-' as int] + b) == a + [ToUpper(b[0])] + b[1..]
  {
    var s := a + ['-' as int] + b;
    var tail := ['-' as int] + b;
    assert s[0] == a[0] && s[1..] == a[1..] + tail;
    assert CamelFrom(s, Separator, false) == [a[0]] + CamelFrom(a[1..] + tail, Letter, true);
    CamelWord(a[1..], tail);
    assert tail[1..] == b;
    assert CamelFrom(tail, Letter, true) == CamelFrom(b, Separator, true);
    assert CamelFrom(b, Separator, true) == [ToUpper(b[0])] + CamelFrom(b[1..], Letter, true);
    CamelWord(b[1..], []);
    assert b[1..] + [] == b[1..];
    assert [a[0]] + a[1..] == a;
  }

  /** Keys as the source writes them normalise to the schema's camel-case names. */
  lemma KnownKeySpellings()
    ensures CamelCase(NormalizeKey(Lit("shift-up"))) == Lit("shiftUp")
    ensures CamelCase(NormalizeKey(Lit("left-bearing"))) == Lit("leftBearing")
    ensures CamelCase(NormalizeKey(Lit("right-bearing"))) == Lit("rightBearing")
    ensures CamelCase(NormalizeKey(Lit("default-char"))) == Lit("defaultChar")
  {
    ShiftUpSpelling();
    LeftBearingSpelling();
    RightBearingSpelling();
    DefaultCharSpelling();
  }

  lemma ShiftUpSpelling()
    ensures CamelCase(NormalizeKey(Lit("shift-up"))) == Lit("shiftUp")
  {
    Spelling(Lit("shift"), Lit("up"), Lit("shift-up"), Lit("shiftUp"));
  }

  lemma LeftBearingSpelling()
    ensures CamelCase(NormalizeKey(Lit("left-bearing"))) == Lit("leftBearing")
  {
    Spelling(Lit("left"), Lit("bearing"), Lit("left-bearing"), Lit("leftBearing"));
  }

  lemma RightBearingSpelling()
    ensures CamelCase(NormalizeKey(Lit("right-bearing"))) == Lit("rightBearing")
  {
    Spelling(Lit("right"), Lit("bearing"), Lit("right-bearing"), Lit("rightBearing"));
  }

  lemma DefaultCharSpelling()
    ensures CamelCase(NormalizeKey(Lit("default-char"))) == Lit("defaultChar")
  {
    Spelling(Lit("default"), Lit("char"), Lit("default-char"), Lit("defaultChar"));
  }

  lemma Spelling(a: JsString, b: JsString, hyphenated: JsString, camel: JsString)
    requires IsLowerWord(a) && IsLowerWord(b)
    requires hyphenated == a + ['-' as int] + b
    requires camel == a + [ToUpper(b[0])] + b[1..]
    ensures CamelCase(NormalizeKey(hyphenated)) == camel
  {
    HyphenatedNormalized(a, b);
    HyphenatedCamel(a, b);
  }

  /** With no apostrophe in it, `replace(/'"/g, '')` leaves a string unchanged. */
  lemma {:induction false} RemoveQuotePairsNoApostrophe(s: JsString)
    requires forall i :: 0 <= i < |s| ==> s[i] != '\'' as int
    ensures RemoveQuotePairs(s) == s
  {
    if s != [] {
      RemoveQuotePairsNoApostrophe(s[1..]);
    }
  }

  /** Hex digits then at most a closing quote: the digit run is exactly the digits. */
  lemma HexRunBeforeQuote(digits: JsString, trail: JsString)
    requires trail == [] || trail == ['"' as int]
    requires AllDigits(digits, 16)
    ensures DigitRun(digits + trail, 16) == |digits| && (digits + trail)[..|digits|] == digits
  {
    if trail == [] {
      assert digits + trail == digits;
      DigitRunAll(digits, 16);
    } else {
      DigitRunStops(digits, trail, 16);
    }
  }

  /** `parseInt(_, 16)` of hex digits, optionally after a `+` and before a closing quote. */
  lemma HexValue(t: JsString, digits: JsString, trail: JsString)
    requires trail == [] || trail == ['"' as int]
    requires |digits| > 0 && AllDigits(digits, 16)
    requires t == digits + trail || t == ['+' as int] + (digits + trail)
    ensures ParseInt(t, 16) == FromInt(DigitsValue(digits, 16))
  {
    HexRunBeforeQuote(digits, trail);
    assert DigitValue((digits + trail)[0]) < 16 by { assert (digits + trail)[0] == digits[0]; }
    UnsignedHex(t, digits + trail, |digits|);
  }

  lemma UnsignedHex(t: JsString, u: JsString, n: nat)
    requires t == u || t == ['+' as int] + u
    requires |u| > 0 && DigitValue(u[0]) < 16
    requires n == DigitRun(u, 16)
    ensures ParseInt(t, 16) == FromInt(DigitsValue(u[..n], 16))
  {
    assert t[0] != '-' as int;
    assert SignStripped(t) == u by {
      if t != u { assert t[1..] == u; }
    }
    ParseIntUnsigned(t, 16, n);
  }

  /** `substring(2)` of an escape starts at its digits, or at the `+` when the escape is quoted. */
  lemma EscapeTail(s: JsString, lead: JsString, prefix: Unit, digits: JsString, trail: JsString)
    requires lead == [] || lead == ['"' as int]
    requires s == lead + [prefix, '+' as int] + digits + trail
    ensures Substring2(s) == (if lead == [] then [] else ['+' as int]) + digits + trail
  {
    if lead == [] {
      assert s == [prefix, '+' as int] + (digits + trail);
      assert s[2..] == digits + trail;
    } else {
      assert s == ['"' as int, prefix] + (['+' as int] + digits + trail);
    }
  }

  /**
   * A `U+hex` escape, bare or in double quotes, reads as the value of its hex
   * digits. The quote stripping `replace(/'"/g, '')` never removes a quote, but
   * `substring(2)` of a quoted escape starts at the `+`, which `parseInt`
   * accepts as a sign, and the reading stops at the closing quote.
   */
  lemma QuotedEscapeValue(s: JsString, lead: JsString, prefix: Unit, digits: JsString, trail: JsString)
    requires lead == [] || lead == ['"' as int]
    requires trail == [] || trail == ['"' as int]
    requires prefix == 'u' as int || prefix == 'U' as int
    requires |digits| > 0 && AllDigits(digits, 16)
    requires s == lead + [prefix, '+' as int] + digits + trail
    ensures AsDefaultChar(PText(s)) == Some(CharCode(FromInt(DigitsValue(digits, 16))))
  {
    EscapeShape(s, lead, prefix, digits, trail);
    RemoveQuotePairsNoApostrophe(s);
    EscapeReading(s, lead, prefix, digits, trail);
  }

  /** An escape is no code-point string, passes the escape pattern, and holds no apostrophe. */
  lemma EscapeShape(s: JsString, lead: JsString, prefix: Unit, digits: JsString, trail: JsString)
    requires lead == [] || lead == ['"' as int]
    requires trail == [] || trail == ['"' as int]
    requires prefix == 'u' as int || prefix == 'U' as int
    requires |digits| > 0 && AllDigits(digits, 16)
    requires s == lead + [prefix, '+' as int] + digits + trail
    ensures CodePoints.CodePointValue(s).None?
    ensures IsQuotedEscape(s)
    ensures forall i :: 0 <= i < |s| ==> s[i] != '\'' as int
  {
    assert !IsDigit(s[0]) by { assert s[0] == (if lead == [] then prefix else '"' as int); }
    var a := |lead|;
    var b := |s| - |trail|;
    assert s[a] == prefix && s[a + 1] == '+' as int;
    assert s[a + 2..b] == digits;
    forall i | 0 <= i < |s| ensures s[i] != '\'' as int {
      if a + 2 <= i < b { assert s[i] == digits[i - a - 2]; assert DigitValue(s[i]) < 16; }
    }
  }

  /** What the escape branch reads from an escape: the value of its hex digits. */
  lemma EscapeReading(s: JsString, lead: JsString, prefix: Unit, digits: JsString, trail: JsString)
    requires lead == [] || lead == ['"' as int]
    requires trail == [] || trail == ['"' as int]
    requires |digits| > 0 && AllDigits(digits, 16)
    requires s == lead + [prefix, '+' as int] + digits + trail
    ensures ParseInt(UpperAll(Substring2(s)), 16) == FromInt(DigitsValue(digits, 16))
  {
    UpperEscapeTail(s, lead, prefix, digits, trail);
    UpperKeepsValue(digits, 16);
    HexValue(UpperAll(Substring2(s)), UpperAll(digits), trail);
  }

  /** Upper-casing what follows `substring(2)` touches only the digits. */
  lemma UpperEscapeTail(s: JsString, lead: JsString, prefix: Unit, digits: JsString, trail: JsString)
    requires lead == [] || lead == ['"' as int]
    requires trail == [] || trail == ['"' as int]
    requires s == lead + [prefix, '+' as int] + digits + trail
    ensures var t, upper := UpperAll(Substring2(s)), UpperAll(digits);
      t == upper + trail || t == ['+' as int] + (upper + trail)
  {
    var sign: JsString := if lead == [] then [] else ['+' as int];
    EscapeTail(s, lead, prefix, digits, trail);
    UpperAllAppend(sign + digits, trail);
    UpperAllAppend(sign, digits);
    assert UpperAll(sign) == sign && UpperAll(trail) == trail;
    var t := UpperAll(Substring2(s));
    var upper := UpperAll(digits);
    assert t == upper + trail || t == ['+' as int] + (upper + trail) by {
      if lead == [] { assert t == upper + trail; } else { assert t == ['+' as int] + (upper + trail); }
    }
  }

  // ---- Glyph-level properties (glyphUsableProperties) ----

  datatype GlyphProps = GlyphProps(leftBearing: Option<real>, shiftUp: Option<real>, rightBearing: Option<real>)

  /** The key is present with a value `z.number()` refuses. */
  predicate RefusesNumber(m: map<JsString, PropValue>, key: JsString) {
    key in m && AsNumber(m[key]).None?
  }

  /** `glyphUsableProperties`: three optional numbers, other keys dropped; None when one is not a number. */
  function ValidateGlyphProps(m: map<JsString, PropValue>): (r: Option<GlyphProps>)
    ensures r.None? <==> RefusesNumber(m, Lit("leftBearing")) || RefusesNumber(m, Lit("shiftUp")) || RefusesNumber(m, Lit("rightBearing"))
    ensures r.Some? ==> (r.value.leftBearing.Some? <==> Lit("leftBearing") in m)
    ensures r.Some? ==> (r.value.shiftUp.Some? <==> Lit("shiftUp") in m)
    ensures r.Some? ==> (r.value.rightBearing.Some? <==> Lit("rightBearing") in m)
    ensures r.Some? && r.value.leftBearing.Some? ==> m[Lit("leftBearing")] == PNumber(Num(r.value.leftBearing.value))
    ensures r.Some? && r.value.shiftUp.Some? ==> m[Lit("shiftUp")] == PNumber(Num(r.value.shiftUp.value))
    ensures r.Some? && r.value.rightBearing.Some? ==> m[Lit("rightBearing")] == PNumber(Num(r.value.rightBearing.value))
  {
    var left, up, right := Lit("leftBearing"), Lit("shiftUp"), Lit("rightBearing");
    if RefusesNumber(m, left) || RefusesNumber(m, up) || RefusesNumber(m, right) then None
    else Some(GlyphProps(NumberOf(m, left), NumberOf(m, up), NumberOf(m, right)))
  }
}
