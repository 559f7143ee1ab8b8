/**
 * Glyph labels: the five accepted shapes (code point, character, tag,
 * default, missing) and the filtering that drops every label of any other
 * shape, and every `missing` label, without failing.
 */
module Labels {
  import opened Wrappers
  import opened Js
  import opened ParseTree
  import CodePoints

  /**
   * A parsed label. A code-point label keeps its whole non-empty list of
   * values; a `[U+hex]` character label keeps its hex digits upper-cased and
   * without the prefix; a quoted character label keeps its one code unit.
   */
  datatype Label =
    | CodePoint(first: Number, more: seq<Number>)
    | Unicode(hex: JsString)
    | Character(ch: Unit)
    | Tag(name: JsString)
    | Default

  /** The values of a non-empty array of code-point strings, if every one coerces. */
  function CodePointValues(items: seq<RawText>): (r: Option<seq<Number>>)
    ensures r.Some? <==> forall i :: 0 <= i < |items| ==> items[i].Text? && CodePoints.CodePointValue(items[i].s).Some?
    ensures r.Some? ==> |r.value| == |items|
                        && forall i :: 0 <= i < |items| ==> items[i].Text? && Some(r.value[i]) == CodePoints.CodePointValue(items[i].s)
  {
    if items == [] then Some([])
    else if items[0].NotText? || CodePoints.CodePointValue(items[0].s).None? then None
    else
      match CodePointValues(items[1..])
      case None => None
      case Some(rest) => Some([CodePoints.CodePointValue(items[0].s).value] + rest)
  }

  /** `[uU]\+[0-9A-F]+` with the /i flag. */
  predicate IsUnicodeEscape(s: JsString) {
    |s| > 2 && (s[0] == 'u' as int || s[0] == 'U' as int) && s[1] == '+' as int && AllDigits(s[2..], 16)
  }

  /** The units JavaScript's `.` does not match: line feed, carriage return, U+2028, U+2029. */
  predicate IsLineTerminator(u: Unit) {
    u == 10 || u == 13 || u == 0x2028 || u == 0x2029
  }

  /** `'.'`: one code unit other than a line terminator between two apostrophes. */
  predicate IsQuotedChar(s: JsString) {
    |s| == 3 && s[0] == '\'' as int && s[2] == '\'' as int && !IsLineTerminator(s[1])
  }

  /** A one-element array holding a `U+hex` escape (the tuple refuses any other length). */
  predicate IsEscapeArg(arg: RawArg) {
    arg.ArgList? && |arg.items| == 1 && arg.items[0].Text? && IsUnicodeEscape(arg.items[0].s)
  }

  /** A character label: a one-element array holding a `U+hex` escape, or a string `'x'`. */
  function CharacterLabel(arg: RawArg): (r: Option<Label>)
    ensures r.Some? <==> IsEscapeArg(arg) || (arg.ArgText? && IsQuotedChar(arg.s))
    ensures IsEscapeArg(arg) ==> r == Some(Unicode(UpperAll(arg.items[0].s[2..])))
    ensures arg.ArgText? && IsQuotedChar(arg.s) ==> r == Some(Character(arg.s[1]))
  {
    match arg
    case ArgList(items) =>
      if |items| == 1 && items[0].Text? && IsUnicodeEscape(items[0].s) then Some(Unicode(UpperAll(items[0].s[2..])))
      else None
    case ArgText(s) =>
      if IsQuotedChar(s) then Some(Character(s[1]))
      else None
    case _ => None
  }

  /** A code-point label: a non-empty array of strings that all coerce; only the first is ever used as a key. */
  function CodePointLabel(arg: RawArg): (r: Option<Label>)
    ensures r.Some? <==> arg.ArgList? && |arg.items| > 0 && CodePointValues(arg.items).Some?
    ensures r.Some? ==> r.value.CodePoint? && [r.value.first] + r.value.more == CodePointValues(arg.items).value
    ensures r.Some? ==> arg.items[0].Text? && Some(r.value.first) == CodePoints.CodePointValue(arg.items[0].s)
  {
    if arg.ArgList? && |arg.items| > 0 then
      match CodePointValues(arg.items)
      case Some(vs) =>
        assert [vs[0]] + vs[1..] == vs;
        Some(CodePoint(vs[0], vs[1..]))
      case None => None
    else None
  }

  /** The `type` values one of the five label shapes takes. */
  predicate IsLabelType(kind: RawText) {
    kind == Text(Lit("codePoint")) || kind == Text(Lit("character")) || kind == Text(Lit("tag"))
    || kind == Text(Lit("default")) || kind == Text(Lit("missing"))
  }

  /**
   * `labelParser`: the shape is chosen by the `type` field. A `missing` label
   * and a label of no accepted shape both become None (null), never an error.
   */
  function ParseLabel(raw: RawLabel): (r: Option<Label>)
    ensures raw.NotAnObject? || raw.kind == Text(Lit("missing")) ==> r.None?
    ensures raw.RawLabel? && !IsLabelType(raw.kind) ==> r.None?
    ensures raw.RawLabel? && raw.kind == Text(Lit("codePoint")) ==> r == CodePointLabel(raw.arg)
    ensures raw.RawLabel? && raw.kind == Text(Lit("character")) ==> r == CharacterLabel(raw.arg)
    ensures r == Some(Default) <==> raw.RawLabel? && raw.kind == Text(Lit("default"))
    ensures r.Some? && r.value.Tag? <==> raw.RawLabel? && raw.kind == Text(Lit("tag")) && raw.arg.ArgText?
    ensures raw.RawLabel? && raw.kind == Text(Lit("tag")) && raw.arg.ArgText? ==> r == Some(Tag(raw.arg.s))
    ensures raw.RawLabel? && raw.kind == Text(Lit("tag")) && !raw.arg.ArgText? ==> r.None?
  {
    assert Lit("missing")[0] != Lit("default")[0];
    assert Lit("character")[1] != Lit("codePoint")[1];
    assert Lit("tag")[0] != Lit("codePoint")[0] && Lit("tag")[0] != Lit("character")[0];
    match raw
    case NotAnObject => None
    case RawLabel(kind, arg) =>
      if kind == Text(Lit("codePoint")) then CodePointLabel(arg)
      else if kind == Text(Lit("character")) then CharacterLabel(arg)
      else if kind == Text(Lit("tag")) then
        if arg.ArgText? then Some(Tag(arg.s)) else None
      else if kind == Text(Lit("default")) then Some(Default)
      else None
  }

  /** The labels that parse, in their original order (`filter(Boolean)`). */
  function Kept(raws: seq<RawLabel>): (r: seq<Label>)
    ensures |r| <= |raws|
  {
    if raws == [] then []
    else
      match ParseLabel(raws[0])
      case Some(l) => [l] + Kept(raws[1..])
      case None => Kept(raws[1..])
  }

  /** `labelArray`: the kept labels, or None when none survives. */
  function ParseLabels(raws: seq<RawLabel>): (r: Option<seq<Label>>)
    ensures r.Some? <==> exists i :: 0 <= i < |raws| && ParseLabel(raws[i]).Some?
    ensures r.Some? ==> |r.value| > 0 && r.value == Kept(raws)
  {
    var kept := Kept(raws);
    KeptNonEmpty(raws);
    if |kept| > 0 then Some(kept) else None
  }

  /** Something is kept exactly when some raw label parses. */
  lemma {:induction false} KeptNonEmpty(raws: seq<RawLabel>)
    ensures |Kept(raws)| > 0 <==> exists i :: 0 <= i < |raws| && ParseLabel(raws[i]).Some?
  {
    if raws != [] {
      KeptNonEmpty(raws[1..]);
      if ParseLabel(raws[0]).None? {
        if i :| 0 <= i < |raws| && ParseLabel(raws[i]).Some? {
          assert raws[1..][i - 1] == raws[i];
        }
      } else {
        assert ParseLabel(raws[0]).Some?;
      }
    }
  }

  /** Filtering distributes over concatenation, so surviving labels keep their relative order. */
  lemma {:induction false} KeptAppend(a: seq<RawLabel>, b: seq<RawLabel>)
    ensures Kept(a + b) == Kept(a) + Kept(b)
  {
    if a == [] {
      assert a + b == b;
    } else {
      assert (a + b)[0] == a[0];
      assert (a + b)[1..] == a[1..] + b;
      KeptAppend(a[1..], b);
    }
  }

  /** Every kept label is the parse of some raw label, and every raw label that parses is kept. */
  lemma {:induction false} KeptExactly(raws: seq<RawLabel>)
    ensures forall l :: l in Kept(raws) <==> exists i :: 0 <= i < |raws| && ParseLabel(raws[i]) == Some(l)
  {
    if raws != [] {
      KeptExactly(raws[1..]);
      forall l ensures l in Kept(raws) <==> exists i :: 0 <= i < |raws| && ParseLabel(raws[i]) == Some(l) {
        if l in Kept(raws) {
          if ParseLabel(raws[0]) == Some(l) {
          } else {
            var i :| 0 <= i < |raws[1..]| && ParseLabel(raws[1..][i]) == Some(l);
            assert ParseLabel(raws[i + 1]) == Some(l);
          }
        } else {
          forall i | 0 <= i < |raws| ensures ParseLabel(raws[i]) != Some(l) {
            if i > 0 { assert raws[i] == raws[1..][i - 1]; }
          }
        }
      }
    }
  }

  /** A missing label or an unparseable one changes nothing about the labels kept. */
  lemma DroppedLabelVanishes(a: seq<RawLabel>, raw: RawLabel, b: seq<RawLabel>)
    requires ParseLabel(raw).None?
    ensures Kept(a + [raw] + b) == Kept(a + b)
  {
    KeptAppend(a + [raw], b);
    KeptAppend(a, [raw]);
    KeptAppend(a, b);
    KeptDropped(raw);
  }

  lemma KeptDropped(raw: RawLabel)
    requires ParseLabel(raw).None?
    ensures Kept([raw]) == []
  {
    assert [raw][1..] == [];
  }

  /** A glyph whose labels are all missing or malformed has no label list at all. */
  lemma NoSurvivorsRejected(raws: seq<RawLabel>)
    requires forall i :: 0 <= i < |raws| ==> ParseLabel(raws[i]).None?
    ensures ParseLabels(raws).None?
  {
    KeptExactly(raws);
    if |Kept(raws)| > 0 {
      assert Kept(raws)[0] in Kept(raws);
    }
  }

  /** `[U+hex]`, with prefix and digits of either case, yields the upper-cased digits of the same value. */
  lemma UnicodeLabelValue(prefix: Unit, digits: JsString)
    requires prefix == 'u' as int || prefix == 'U' as int
    requires |digits| > 0 && AllDigits(digits, 16)
    ensures ParseLabel(RawLabel(Text(Lit("character")), ArgList([Text([prefix, '+' as int] + digits)])))
         == Some(Unicode(UpperAll(digits)))
    ensures forall i :: 0 <= i < |UpperAll(digits)| ==> !IsLower(UpperAll(digits)[i])
    ensures DigitsValue(UpperAll(digits), 16) == DigitsValue(digits, 16)
  {
    var s := [prefix, '+' as int] + digits;
    UnicodeArgument(prefix, digits, s);
    assert Lit("character") != Lit("codePoint") by { assert Lit("character")[1] != Lit("codePoint")[1]; }
    UpperKeepsValue(digits, 16);
  }

  lemma UnicodeArgument(prefix: Unit, digits: JsString, s: JsString)
    requires prefix == 'u' as int || prefix == 'U' as int
    requires |digits| > 0 && AllDigits(digits, 16)
    requires s == [prefix, '+' as int] + digits
    ensures CharacterLabel(ArgList([Text(s)])) == Some(Unicode(UpperAll(digits)))
  {
    assert s[2..] == digits;
  }

  /** `'x'` yields the single code unit x, for any x that is not a line terminator. */
  lemma CharLabelValue(x: Unit)
    requires !IsLineTerminator(x)
    ensures ParseLabel(RawLabel(Text(Lit("character")), ArgText(['\'' as int, x, '\'' as int]))) == Some(Character(x))
  {
    assert Lit("character") != Lit("codePoint") by { assert Lit("character")[1] != Lit("codePoint")[1]; }
  }
}
