/**
 * The glyph index of a font: four maps and a default, filled from the labels
 * of the compiled glyphs in document order, and the two fallback chains that
 * look a character or a character code up in them. Glyphs are named by their
 * position in the font's glyph list.
 */
module Resolver {
  import opened Wrappers
  import opened Js
  import opened Labels
  import opened Properties

  /** The four maps and the default pointer. Map keys compare as JavaScript's `Map` does, so NaN finds NaN. */
  datatype Index = Index(
    codePointMap: map<Number, nat>,
    unicodeMap: map<Number, nat>,
    characterMap: map<Unit, nat>,
    tagMap: map<JsString, nat>,
    default: Option<nat>)

  function EmptyIndex(): Index {
    Index(map[], map[], map[], map[], None)
  }

  /** One slot of the index: an entry of one of the four maps, or the default. */
  datatype Key = CodePointKey(n: Number) | UnicodeKey(u: Number) | CharacterKey(ch: Unit) | TagKey(name: JsString) | DefaultKey

  /** `Map.get` on the slot's map, or the default pointer. */
  function Lookup(ix: Index, k: Key): Option<nat> {
    match k
    case CodePointKey(n) => if n in ix.codePointMap then Some(ix.codePointMap[n]) else None
    case UnicodeKey(n) => if n in ix.unicodeMap then Some(ix.unicodeMap[n]) else None
    case CharacterKey(c) => if c in ix.characterMap then Some(ix.characterMap[c]) else None
    case TagKey(t) => if t in ix.tagMap then Some(ix.tagMap[t]) else None
    case DefaultKey => ix.default
  }

  /** Every glyph the index names is one of the first n glyphs. */
  ghost predicate InRange(ix: Index, n: nat) {
    forall k :: Lookup(ix, k).Some? ==> Lookup(ix, k).value < n
  }

  predicate IsUpperHexDigit(u: Unit) {
    IsDigit(u) || 'A' as int <= u <= 'F' as int
  }

  /** The tag pattern `^[Uu]\+[0-9A-F]+$`, which unlike the label patterns has no /i flag. */
  predicate IsTagEscape(name: JsString) {
    |name| > 2 && (name[0] == 'U' as int || name[0] == 'u' as int) && name[1] == '+' as int
    && forall i :: 2 <= i < |name| ==> IsUpperHexDigit(name[i])
  }

  /** The slots one label writes: one, except a `U+HEX` tag, which also writes the unicode map. */
  function KeysOf(l: Label): set<Key> {
    match l
    case Default => {DefaultKey}
    case Unicode(hex) => {UnicodeKey(ParseInt(hex, 16))}
    case Character(c) => {CharacterKey(c)}
    case CodePoint(first, _) => {CodePointKey(first)}
    case Tag(name) =>
      if IsTagEscape(name) then {TagKey(name), UnicodeKey(ParseInt(name[2..], 16))} else {TagKey(name)}
  }

  /** The body of the label loop in `Font.load`: the label's slots now name glyph g. */
  function AddLabel(ix: Index, l: Label, g: nat): Index {
    match l
    case Default => ix.(default := Some(g))
    case Unicode(hex) => ix.(unicodeMap := ix.unicodeMap[ParseInt(hex, 16) := g])
    case Character(c) => ix.(characterMap := ix.characterMap[c := g])
    case CodePoint(first, _) => ix.(codePointMap := ix.codePointMap[first := g])
    case Tag(name) =>
      var withUnicode := if IsTagEscape(name) then ix.(unicodeMap := ix.unicodeMap[ParseInt(name[2..], 16) := g]) else ix;
      withUnicode.(tagMap := withUnicode.tagMap[name := g])
  }

  /** All labels of glyph g, entered in order. */
  function AddLabels(ix: Index, labels: seq<Label>, g: nat): Index {
    if labels == [] then ix else AddLabel(AddLabels(ix, labels[..|labels| - 1], g), labels[|labels| - 1], g)
  }

  /** The index built from the label lists of the glyphs, glyph 0 first. */
  function Assembled(lists: seq<seq<Label>>): Index {
    if lists == [] then EmptyIndex()
    else AddLabels(Assembled(lists[..|lists| - 1]), lists[|lists| - 1], |lists| - 1)
  }

  /** Some label of the list writes slot k. */
  predicate Carries(labels: seq<Label>, k: Key) {
    exists j :: 0 <= j < |labels| && k in KeysOf(labels[j])
  }

  /** A label writes exactly its own slots and leaves every other slot as it was. */
  lemma AddLabelEffect(ix: Index, l: Label, g: nat, k: Key)
    ensures Lookup(AddLabel(ix, l, g), k) == if k in KeysOf(l) then Some(g) else Lookup(ix, k)
  {
  }

  /** Every label writes one slot, except a `U+HEX` tag, which writes two. */
  lemma KeysOfCount(l: Label)
    ensures |KeysOf(l)| == if l.Tag? && IsTagEscape(l.name) then 2 else 1
    ensures l.Tag? ==> TagKey(l.name) in KeysOf(l)
  {
    if l.Tag? && IsTagEscape(l.name) {
      assert TagKey(l.name) != UnicodeKey(ParseInt(l.name[2..], 16));
    }
  }

  lemma {:induction false} AddLabelsEffect(ix: Index, labels: seq<Label>, g: nat, k: Key)
    ensures Lookup(AddLabels(ix, labels, g), k) == if Carries(labels, k) then Some(g) else Lookup(ix, k)
  {
    if labels != [] {
      var front := labels[..|labels| - 1];
      AddLabelsEffect(ix, front, g, k);
      AddLabelEffect(AddLabels(ix, front, g), labels[|labels| - 1], g, k);
      if Carries(front, k) {
        var j :| 0 <= j < |front| && k in KeysOf(front[j]);
        assert labels[j] == front[j];
      }
      if Carries(labels, k) {
        var j :| 0 <= j < |labels| && k in KeysOf(labels[j]);
        if j < |front| {
          assert front[j] == labels[j];
          assert Carries(front, k);
        }
      }
    }
  }

  /** The last glyph, in document order, whose labels write slot k. */
  function LastCarrier(lists: seq<seq<Label>>, k: Key): Option<nat> {
    if lists == [] then None
    else if Carries(lists[|lists| - 1], k) then Some(|lists| - 1)
    else LastCarrier(lists[..|lists| - 1], k)
  }

  /** Assembly leaves in each slot the last glyph that writes it. */
  lemma {:induction false} AssembledIsLastCarrier(lists: seq<seq<Label>>, k: Key)
    ensures Lookup(Assembled(lists), k) == LastCarrier(lists, k)
  {
    if lists != [] {
      var n := |lists| - 1;
      AssembledIsLastCarrier(lists[..n], k);
      AddLabelsEffect(Assembled(lists[..n]), lists[n], n, k);
    }
  }

  /** No carrier is found exactly when no glyph's labels write the slot. */
  lemma {:induction false} LastCarrierNone(lists: seq<seq<Label>>, k: Key)
    ensures LastCarrier(lists, k).None? <==> forall i :: 0 <= i < |lists| ==> !Carries(lists[i], k)
  {
    if lists != [] {
      var n := |lists| - 1;
      LastCarrierNone(lists[..n], k);
      if !Carries(lists[n], k) {
        assert forall i :: 0 <= i < n ==> lists[..n][i] == lists[i];
      }
    }
  }

  /** When the last list does not write the slot, being the last carrier is the same with or without it. */
  lemma LaterCarriers(lists: seq<seq<Label>>, k: Key, i: nat)
    requires |lists| > 0 && !Carries(lists[|lists| - 1], k)
    ensures (i < |lists| && Carries(lists[i], k) && forall j :: i < j < |lists| ==> !Carries(lists[j], k))
        <==> (var front := lists[..|lists| - 1];
              i < |front| && Carries(front[i], k) && forall j :: i < j < |front| ==> !Carries(front[j], k))
  {
    var front := lists[..|lists| - 1];
    assert forall j :: 0 <= j < |front| ==> front[j] == lists[j];
  }

  /** The carrier found is a glyph that writes the slot, and no later glyph does. */
  lemma {:induction false} LastCarrierSome(lists: seq<seq<Label>>, k: Key, i: nat)
    ensures LastCarrier(lists, k) == Some(i) <==>
      i < |lists| && Carries(lists[i], k) && forall j :: i < j < |lists| ==> !Carries(lists[j], k)
  {
    if lists != [] {
      var n := |lists| - 1;
      if Carries(lists[n], k) {
        if i < n {
          assert i < n < |lists| && Carries(lists[n], k);
        }
      } else {
        LastCarrierSome(lists[..n], k, i);
        LaterCarriers(lists, k, i);
      }
    }
  }

  /**
   * After assembly, a slot names the last glyph in document order whose
   * labels write it, and is empty when no glyph's labels do.
   */
  lemma AssembledLastWriter(lists: seq<seq<Label>>, k: Key)
    ensures Lookup(Assembled(lists), k).None? <==> forall i :: 0 <= i < |lists| ==> !Carries(lists[i], k)
    ensures forall i: nat :: Lookup(Assembled(lists), k) == Some(i) <==>
      i < |lists| && Carries(lists[i], k) && forall j :: i < j < |lists| ==> !Carries(lists[j], k)
  {
    AssembledIsLastCarrier(lists, k);
    LastCarrierNone(lists, k);
    forall i: nat ensures Lookup(Assembled(lists), k) == Some(i) <==>
      i < |lists| && Carries(lists[i], k) && forall j :: i < j < |lists| ==> !Carries(lists[j], k)
    {
      LastCarrierSome(lists, k, i);
    }
  }

  /** The assembled index names only glyphs that exist. */
  lemma AssembledInRange(lists: seq<seq<Label>>)
    ensures InRange(Assembled(lists), |lists|)
  {
    forall k | Lookup(Assembled(lists), k).Some? ensures Lookup(Assembled(lists), k).value < |lists| {
      AssembledLastWriter(lists, k);
    }
  }

  /** A `[U+hex]` character label and the tag `U+HEX` with the same upper-case digits share their unicode slot. */
  lemma UnicodeLabelAndTagAgree(prefix: Unit, digits: JsString)
    requires prefix == 'U' as int || prefix == 'u' as int
    requires |digits| > 0 && forall i :: 0 <= i < |digits| ==> IsUpperHexDigit(digits[i])
    ensures IsTagEscape([prefix, '+' as int] + digits)
    ensures KeysOf(Unicode(digits)) <= KeysOf(Tag([prefix, '+' as int] + digits))
    ensures KeysOf(Unicode(digits)) == {UnicodeKey(FromInt(DigitsValue(digits, 16)))}
  {
    var name := [prefix, '+' as int] + digits;
    TagEscapeName(name, prefix, digits);
    UpperHexDigits(digits);
    UnicodeKeys(digits);
    TagKeys(name, digits);
  }

  lemma UnicodeKeys(digits: JsString)
    requires |digits| > 0 && AllDigits(digits, 16)
    ensures KeysOf(Unicode(digits)) == {UnicodeKey(FromInt(DigitsValue(digits, 16)))}
    ensures ParseInt(digits, 16) == FromInt(DigitsValue(digits, 16))
  {
    ParseIntDigits(digits, 16);
  }

  lemma TagKeys(name: JsString, digits: JsString)
    requires IsTagEscape(name) && name[2..] == digits
    ensures KeysOf(Tag(name)) == {TagKey(name), UnicodeKey(ParseInt(digits, 16))}
  {
  }

  lemma TagEscapeName(name: JsString, prefix: Unit, digits: JsString)
    requires prefix == 'U' as int || prefix == 'u' as int
    requires |digits| > 0 && forall i :: 0 <= i < |digits| ==> IsUpperHexDigit(digits[i])
    requires name == [prefix, '+' as int] + digits
    ensures IsTagEscape(name) && name[2..] == digits
  {
    assert forall i :: 2 <= i < |name| ==> name[i] == digits[i - 2];
  }

  /** Upper-case hex digits are digits of radix 16. */
  lemma UpperHexDigits(digits: JsString)
    requires forall i :: 0 <= i < |digits| ==> IsUpperHexDigit(digits[i])
    ensures AllDigits(digits, 16)
  {
    forall i | 0 <= i < |digits| ensures DigitValue(digits[i]) < 16 { assert IsUpperHexDigit(digits[i]); }
  }

  // ---- Lookup chains ----

  /** The first slot of the chain that names a glyph, or None when every slot misses. */
  function FirstHit(ix: Index, probes: seq<Key>): (r: Option<nat>)
    ensures r.None? <==> forall i :: 0 <= i < |probes| ==> Lookup(ix, probes[i]).None?
    ensures r.Some? ==> exists i :: 0 <= i < |probes| && Lookup(ix, probes[i]) == r
                                    && forall j :: 0 <= j < i ==> Lookup(ix, probes[j]).None?
  {
    if probes == [] then None
    else if Lookup(ix, probes[0]).Some? then Lookup(ix, probes[0])
    else
      var r := FirstHit(ix, probes[1..]);
      assert forall i :: 0 < i < |probes| ==> probes[i] == probes[1..][i - 1];
      r
  }

  /** `charCodeAt(0)`: the first code unit, NaN for the empty string. */
  function CharCodeAt0(s: JsString): Number {
    if |s| > 0 then FromInt(s[0]) else NaN
  }

  /**
   * The chain of `getGlyphForCharacter`: the first unit in the character map,
   * its code in the unicode map, then in the code-point map, the whole string
   * in the tag map, then the default. `charAt(0)` of the empty string is the
   * empty string, which is never a character-map key.
   */
  function CharacterProbes(s: JsString): seq<Key> {
    (if |s| > 0 then [CharacterKey(s[0])] else [])
      + [UnicodeKey(CharCodeAt0(s)), CodePointKey(CharCodeAt0(s)), TagKey(s), DefaultKey]
  }

  /** The chain of `getGlyphForCharcode`: code-point map, unicode map, default. */
  function CharcodeProbes(code: Number): seq<Key> {
    [CodePointKey(code), UnicodeKey(code), DefaultKey]
  }

  function LookupCharacter(ix: Index, s: JsString): Option<nat> {
    FirstHit(ix, CharacterProbes(s))
  }

  function LookupCharcode(ix: Index, code: Number): Option<nat> {
    FirstHit(ix, CharcodeProbes(code))
  }

  /** The first slot of a chain that hits decides the result. */
  lemma FirstHitAt(ix: Index, probes: seq<Key>, i: nat)
    requires i < |probes| && Lookup(ix, probes[i]).Some?
    requires forall j :: 0 <= j < i ==> Lookup(ix, probes[j]).None?
    ensures FirstHit(ix, probes) == Lookup(ix, probes[i])
  {
  }

  /** A lookup only ever names a glyph of the index. */
  lemma FirstHitInRange(ix: Index, probes: seq<Key>, n: nat)
    requires InRange(ix, n)
    ensures FirstHit(ix, probes).Some? ==> FirstHit(ix, probes).value < n
  {
  }

  /** A character lookup fails exactly when every map misses and there is no default. */
  lemma LookupCharacterNone(ix: Index, s: JsString)
    ensures LookupCharacter(ix, s).None? <==>
      (|s| == 0 || s[0] !in ix.characterMap) && CharCodeAt0(s) !in ix.unicodeMap && CharCodeAt0(s) !in ix.codePointMap
      && s !in ix.tagMap && ix.default.None?
  {
    var p := CharacterProbes(s);
    if |s| > 0 {
      assert p[0] == CharacterKey(s[0]) && p[1] == UnicodeKey(CharCodeAt0(s)) && p[2] == CodePointKey(CharCodeAt0(s));
      assert p[3] == TagKey(s) && p[4] == DefaultKey;
    } else {
      assert p[0] == UnicodeKey(NaN) && p[1] == CodePointKey(NaN) && p[2] == TagKey(s) && p[3] == DefaultKey;
    }
  }

  /** A character-map hit on the first unit wins over every other map, even a different unicode-map glyph. */
  lemma CharacterMapWins(ix: Index, s: JsString)
    requires |s| > 0 && s[0] in ix.characterMap
    ensures LookupCharacter(ix, s) == Some(ix.characterMap[s[0]])
  {
    FirstHitAt(ix, CharacterProbes(s), 0);
  }

  /** Without a character-map hit, the unicode map on the first unit's code comes next. */
  lemma UnicodeMapSecond(ix: Index, s: JsString)
    requires |s| > 0 && s[0] !in ix.characterMap && CharCodeAt0(s) in ix.unicodeMap
    ensures LookupCharacter(ix, s) == Some(ix.unicodeMap[CharCodeAt0(s)])
  {
    FirstHitAt(ix, CharacterProbes(s), 1);
  }

  /** The tag map is consulted on the whole string, only after both maps keyed by code miss. */
  lemma TagMapFourth(ix: Index, s: JsString)
    requires |s| > 0 && s[0] !in ix.characterMap && CharCodeAt0(s) !in ix.unicodeMap && CharCodeAt0(s) !in ix.codePointMap
    requires s in ix.tagMap
    ensures LookupCharacter(ix, s) == Some(ix.tagMap[s])
  {
    var p := CharacterProbes(s);
    assert p[0] == CharacterKey(s[0]) && p[1] == UnicodeKey(CharCodeAt0(s)) && p[2] == CodePointKey(CharCodeAt0(s));
    FirstHitAt(ix, p, 3);
  }

  /** A code lookup fails exactly when both code maps miss and there is no default. */
  lemma LookupCharcodeNone(ix: Index, code: Number)
    ensures LookupCharcode(ix, code).None? <==>
      code !in ix.codePointMap && code !in ix.unicodeMap && ix.default.None?
  {
    var p := CharcodeProbes(code);
    assert p[0] == CodePointKey(code) && p[1] == UnicodeKey(code) && p[2] == DefaultKey;
  }

  /** The code-point map wins over the unicode map for a code lookup. */
  lemma CodePointMapWins(ix: Index, code: Number)
    requires code in ix.codePointMap
    ensures LookupCharcode(ix, code) == Some(ix.codePointMap[code])
  {
    FirstHitAt(ix, CharcodeProbes(code), 0);
  }

  /** A code lookup never reads the character map or the tag map. */
  lemma LookupCharcodeIgnoresCharactersAndTags(ix: Index, code: Number, characters: map<Unit, nat>, tags: map<JsString, nat>)
    ensures LookupCharcode(ix.(characterMap := characters, tagMap := tags), code) == LookupCharcode(ix, code)
  {
    var ix' := ix.(characterMap := characters, tagMap := tags);
    var p := CharcodeProbes(code);
    assert forall i :: 0 <= i < |p| ==> Lookup(ix', p[i]) == Lookup(ix, p[i]);
    SameSlotsSameHit(ix', ix, p);
  }

  lemma {:induction false} SameSlotsSameHit(ix: Index, ix': Index, probes: seq<Key>)
    requires forall i :: 0 <= i < |probes| ==> Lookup(ix, probes[i]) == Lookup(ix', probes[i])
    ensures FirstHit(ix, probes) == FirstHit(ix', probes)
  {
    if probes != [] {
      assert forall i :: 0 < i < |probes| ==> probes[1..][i - 1] == probes[i];
      SameSlotsSameHit(ix, ix', probes[1..]);
    }
  }

  // ---- defaultChar ----

  /**
   * The default after the `defaultChar` block of `Font.load`: `missing` takes the
   * glyph tagged `missing` when there is one; a code takes the character lookup
   * of `String.fromCharCode(code)` when it finds a glyph; `default` and an
   * absent property keep the glyph labelled `default`.
   */
  function ResolveDefault(ix: Index, defaultChar: Option<DefaultChar>): Option<nat> {
    match defaultChar
    case Some(MissingKeyword) => if Lit("missing") in ix.tagMap then Some(ix.tagMap[Lit("missing")]) else ix.default
    case Some(CharCode(code)) =>
      (match LookupCharacter(ix, [ToUint16(code)])
       case Some(g) => Some(g)
       case None => ix.default)
    case _ => ix.default
  }

  /**
   * A numeric `defaultChar` makes the default exactly what a character lookup of
   * its code unit finds, since that lookup falls back to the default itself.
   */
  lemma NumericDefaultIsLookup(ix: Index, code: Number)
    ensures ResolveDefault(ix, Some(CharCode(code))) == LookupCharacter(ix, [ToUint16(code)])
  {
    var s: JsString := [ToUint16(code)];
    if LookupCharacter(ix, s).None? {
      LookupCharacterNone(ix, s);
    }
  }

  /** `missing` without a glyph tagged `missing`, `default`, or no property: the default is untouched. */
  lemma DefaultKeptOtherwise(ix: Index, defaultChar: Option<DefaultChar>)
    requires defaultChar.None? || defaultChar == Some(DefaultKeyword)
             || (defaultChar == Some(MissingKeyword) && Lit("missing") !in ix.tagMap)
    ensures ResolveDefault(ix, defaultChar) == ix.default
  {
  }

  /** `missing` with a glyph tagged `missing`: the default becomes that glyph. */
  lemma MissingTakesTag(ix: Index)
    requires Lit("missing") in ix.tagMap
    ensures ResolveDefault(ix, Some(MissingKeyword)) == Some(ix.tagMap[Lit("missing")])
  {
  }

  /** Resolving the default keeps the index within the glyph list and changes only the default. */
  lemma ResolveDefaultInRange(ix: Index, defaultChar: Option<DefaultChar>, n: nat)
    requires InRange(ix, n)
    ensures InRange(ix.(default := ResolveDefault(ix, defaultChar)), n)
    ensures forall k :: k != DefaultKey ==> Lookup(ix.(default := ResolveDefault(ix, defaultChar)), k) == Lookup(ix, k)
  {
    var r := ResolveDefault(ix, defaultChar);
    ResolveDefaultBounded(ix, defaultChar, n);
    var ix' := ix.(default := r);
    forall k | Lookup(ix', k).Some? ensures Lookup(ix', k).value < n {
      if k != DefaultKey {
        assert Lookup(ix', k) == Lookup(ix, k);
      }
    }
  }

  lemma ResolveDefaultBounded(ix: Index, defaultChar: Option<DefaultChar>, n: nat)
    requires InRange(ix, n)
    ensures ResolveDefault(ix, defaultChar).Some? ==> ResolveDefault(ix, defaultChar).value < n
  {
    assert Lookup(ix, DefaultKey) == ix.default;
    match defaultChar {
      case Some(CharCode(code)) =>
        FirstHitInRange(ix, CharacterProbes([ToUint16(code)]), n);
      case Some(MissingKeyword) =>
        if Lit("missing") in ix.tagMap {
          assert Lookup(ix, TagKey(Lit("missing"))) == Some(ix.tagMap[Lit("missing")]);
        }
      case _ =>
    }
  }
}
