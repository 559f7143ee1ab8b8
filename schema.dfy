/**
 * The whole-document normaliser: every raw entry is tried as a glyph and as
 * a property; an entry that is neither is dropped (never fatal). Surviving
 * property pairs are folded into one object and validated, which is the only
 * step that can make the load fail; surviving glyphs are kept in document
 * order.
 */
module Schema {
  import opened Wrappers
  import opened Js
  import opened ParseTree
  import opened Labels
  import opened Ink
  import opened Properties

  /** A normalised glyph: at least one label, its ink, and its glyph-level properties. */
  datatype GlyphSource = GlyphSource(labels: seq<Label>, ink: Ink, props: GlyphProps)

  /** A surviving entry: a property pair (an array) or a glyph (an object with `ink`). */
  datatype Entry = PropertyEntry(key: JsString, value: PropValue) | GlyphEntry(glyph: GlyphSource)

  /** The normalised document. */
  datatype Document = Document(properties: FontProperties, glyphs: seq<GlyphSource>)

  /** `z.array(propertyParser)`: every element must be an acceptable property, else the whole array fails. */
  function PropertyPairs(raws: seq<RawEntry>): (r: Option<seq<(JsString, PropValue)>>)
    ensures r.Some? <==> forall i :: 0 <= i < |raws| ==> raws[i].RawProperty? && ParseProperty(raws[i].key, raws[i].val).Some?
    ensures r.Some? ==> |r.value| == |raws|
                        && forall i :: 0 <= i < |raws| ==> Some(r.value[i]) == ParseProperty(raws[i].key, raws[i].val)
  {
    if raws == [] then Some([])
    else if !raws[0].RawProperty? || ParseProperty(raws[0].key, raws[0].val).None? then None
    else
      match PropertyPairs(raws[1..])
      case None => None
      case Some(rest) =>
        PairsCons(raws, ParseProperty(raws[0].key, raws[0].val).value, rest);
        Some([ParseProperty(raws[0].key, raws[0].val).value] + rest)
  }

  /** Pairing the first entry in front of the pairs of the rest pairs every entry. */
  lemma PairsCons(raws: seq<RawEntry>, first: (JsString, PropValue), rest: seq<(JsString, PropValue)>)
    requires |raws| > 0 && raws[0].RawProperty? && ParseProperty(raws[0].key, raws[0].val) == Some(first)
    requires |rest| == |raws| - 1
    requires forall i :: 0 <= i < |rest| ==> raws[1..][i].RawProperty? && Some(rest[i]) == ParseProperty(raws[1..][i].key, raws[1..][i].val)
    ensures forall i :: 0 <= i < |raws| ==> raws[i].RawProperty? && Some(([first] + rest)[i]) == ParseProperty(raws[i].key, raws[i].val)
  {
    forall i | 0 <= i < |raws|
      ensures raws[i].RawProperty? && Some(([first] + rest)[i]) == ParseProperty(raws[i].key, raws[i].val)
    {
      if i > 0 { assert raws[i] == raws[1..][i - 1]; }
    }
  }

  /** `glyphParser`: labels, ink and glyph properties must all be acceptable. */
  function ParseGlyph(labels: seq<RawLabel>, ink: RawInk, props: seq<RawEntry>): (r: Option<GlyphSource>)
    ensures r.Some? <==> ParseLabels(labels).Some? && ParseInk(ink).Some? && PropertyPairs(props).Some?
                         && ValidateGlyphProps(FromEntries(PropertyPairs(props).value)).Some?
    ensures r.Some? ==> |r.value.labels| > 0 && r.value.labels == Kept(labels) && Some(r.value.ink) == ParseInk(ink)
    ensures r.Some? ==> PropertyPairs(props).Some? && Some(r.value.props) == ValidateGlyphProps(FromEntries(PropertyPairs(props).value))
  {
    match (ParseLabels(labels), ParseInk(ink), PropertyPairs(props))
    case (Some(ls), Some(k), Some(ps)) =>
      (match ValidateGlyphProps(FromEntries(ps))
       case Some(gp) => Some(GlyphSource(ls, k, gp))
       case None => None)
    case _ => None
  }

  /**
   * `fontEntry`: the union of the glyph and property parsers with `.catch(null)`.
   * A glyph object never has `type: 'property'` and a property object never
   * has labels, so at most one alternative applies; None is the dropped null.
   */
  function ParseEntry(e: RawEntry): (r: Option<Entry>)
    ensures e.Malformed? ==> r.None?
    ensures r.Some? && r.value.GlyphEntry? <==> e.RawGlyph? && ParseGlyph(e.labels, e.ink, e.props).Some?
    ensures r.Some? && r.value.PropertyEntry? <==> e.RawProperty? && ParseProperty(e.key, e.val).Some?
    ensures e.RawGlyph? && ParseGlyph(e.labels, e.ink, e.props).Some? ==> r == Some(GlyphEntry(ParseGlyph(e.labels, e.ink, e.props).value))
    ensures e.RawProperty? && ParseProperty(e.key, e.val).Some? ==>
              r == Some(PropertyEntry(ParseProperty(e.key, e.val).value.0, ParseProperty(e.key, e.val).value.1))
  {
    match e
    case Malformed => None
    case RawGlyph(labels, ink, props) =>
      (match ParseGlyph(labels, ink, props)
       case Some(g) => Some(GlyphEntry(g))
       case None => None)
    case RawProperty(key, val) =>
      (match ParseProperty(key, val)
       case Some(p) => Some(PropertyEntry(p.0, p.1))
       case None => None)
  }

  /** The entries that parse, in document order (`filter(Boolean)`). */
  function Entries(es: seq<RawEntry>): (r: seq<Entry>)
    ensures |r| <= |es|
  {
    if es == [] then []
    else
      match ParseEntry(es[0])
      case Some(x) => [x] + Entries(es[1..])
      case None => Entries(es[1..])
  }

  /** The property tuples among the entries, in order. */
  function Pairs(entries: seq<Entry>): (r: seq<(JsString, PropValue)>)
    ensures |r| <= |entries|
  {
    if entries == [] then []
    else if entries[0].PropertyEntry? then [(entries[0].key, entries[0].value)] + Pairs(entries[1..])
    else Pairs(entries[1..])
  }

  /** The glyphs among the entries (those with an `ink` field), in order. */
  function Glyphs(entries: seq<Entry>): (r: seq<GlyphSource>)
    ensures |r| <= |entries|
  {
    if entries == [] then []
    else if entries[0].GlyphEntry? then [entries[0].glyph] + Glyphs(entries[1..])
    else Glyphs(entries[1..])
  }

  /**
   * `schema`: drop what does not parse, partition, fold the property pairs and
   * validate them. A refused font property is the one fatal outcome; its error
   * names every refused key.
   */
  function Normalize(es: seq<RawEntry>): (r: Result<Document, seq<JsString>>)
    ensures r.Failure? <==> SomeKnownKeyRefused(FromEntries(Pairs(Entries(es))))
    ensures r.Failure? ==> |r.error| > 0 && r.error == RefusedKeys(FontKeys(), FromEntries(Pairs(Entries(es))))
    ensures r.Success? ==> r.value.properties == Collect(FromEntries(Pairs(Entries(es))))
                           && r.value.glyphs == Glyphs(Entries(es)) && |r.value.glyphs| <= |es|
  {
    Partition(Entries(es))
  }

  /** The transform after filtering: properties validated, glyphs passed through. */
  function Partition(entries: seq<Entry>): (r: Result<Document, seq<JsString>>)
    ensures r.Failure? <==> SomeKnownKeyRefused(FromEntries(Pairs(entries)))
    ensures r.Failure? ==> |r.error| > 0 && r.error == RefusedKeys(FontKeys(), FromEntries(Pairs(entries)))
    ensures r.Success? ==> r.value.properties == Collect(FromEntries(Pairs(entries)))
                           && r.value.glyphs == Glyphs(entries) && |r.value.glyphs| <= |entries|
  {
    match ValidateFontProperties(FromEntries(Pairs(entries)))
    case Failure(refused) => Failure(refused)
    case Success(p) => Success(Document(p, Glyphs(entries)))
  }

  lemma {:induction false} EntriesAppend(a: seq<RawEntry>, b: seq<RawEntry>)
    ensures Entries(a + b) == Entries(a) + Entries(b)
  {
    if a == [] {
      assert a + b == b;
    } else {
      assert (a + b)[0] == a[0];
      assert (a + b)[1..] == a[1..] + b;
      EntriesAppend(a[1..], b);
    }
  }

  lemma {:induction false} PairsAppend(a: seq<Entry>, b: seq<Entry>)
    ensures Pairs(a + b) == Pairs(a) + Pairs(b)
  {
    if a == [] {
      assert a + b == b;
    } else {
      assert (a + b)[0] == a[0];
      assert (a + b)[1..] == a[1..] + b;
      PairsAppend(a[1..], b);
    }
  }

  lemma {:induction false} GlyphsAppend(a: seq<Entry>, b: seq<Entry>)
    ensures Glyphs(a + b) == Glyphs(a) + Glyphs(b)
  {
    if a == [] {
      assert a + b == b;
    } else {
      assert (a + b)[0] == a[0];
      assert (a + b)[1..] == a[1..] + b;
      GlyphsAppend(a[1..], b);
    }
  }

  /** One entry in the middle of a document contributes exactly its own parse, or nothing. */
  lemma {:induction false} EntriesSplit(a: seq<RawEntry>, e: RawEntry, b: seq<RawEntry>)
    ensures Entries(a + [e] + b) == Entries(a) + (if ParseEntry(e).Some? then [ParseEntry(e).value] else []) + Entries(b)
  {
    EntriesAppend(a + [e], b);
    EntriesAppend(a, [e]);
    EntriesSingle(e);
  }

  lemma EntriesSingle(e: RawEntry)
    ensures Entries([e]) == if ParseEntry(e).Some? then [ParseEntry(e).value] else []
  {
    assert [e][1..] == [];
  }

  /** An entry that is neither a glyph nor a property is dropped and changes nothing. */
  lemma {:induction false} DroppedEntryHarmless(a: seq<RawEntry>, e: RawEntry, b: seq<RawEntry>)
    requires ParseEntry(e).None?
    ensures Normalize(a + [e] + b) == Normalize(a + b)
  {
    assert Entries(a + [e] + b) == Entries(a + b) by {
      EntriesSplit(a, e, b);
      EntriesAppend(a, b);
    }
    SameEntriesSameDocument(a + [e] + b, a + b);
  }

  lemma SameEntriesSameDocument(x: seq<RawEntry>, y: seq<RawEntry>)
    requires Entries(x) == Entries(y)
    ensures Normalize(x) == Normalize(y)
  {
  }

  /**
   * A glyph entry never decides whether the load fails: the document with it
   * succeeds exactly when the document without it does, with the same
   * properties and the glyph in its document position.
   */
  lemma {:induction false} GlyphEntryNeverFatal(a: seq<RawEntry>, e: RawEntry, b: seq<RawEntry>, g: GlyphSource)
    requires ParseEntry(e) == Some(GlyphEntry(g))
    ensures Normalize(a + [e] + b).Success? <==> Normalize(a + b).Success?
    ensures Normalize(a + b).Success? ==>
      Normalize(a + [e] + b).value.properties == Normalize(a + b).value.properties
      && Normalize(a + [e] + b).value.glyphs == Glyphs(Entries(a)) + [g] + Glyphs(Entries(b))
  {
    EntriesSplit(a, e, b);
    EntriesAppend(a, b);
    GlyphNeverDecides(Entries(a), g, Entries(b));
  }

  /** On parsed entries: a glyph entry leaves the property tuples alone and adds itself to the glyphs in place. */
  lemma GlyphNeverDecides(ea: seq<Entry>, g: GlyphSource, eb: seq<Entry>)
    ensures Partition(ea + [GlyphEntry(g)] + eb).Success? <==> Partition(ea + eb).Success?
    ensures Partition(ea + eb).Success? ==>
      Partition(ea + [GlyphEntry(g)] + eb).value.properties == Partition(ea + eb).value.properties
      && Partition(ea + [GlyphEntry(g)] + eb).value.glyphs == Glyphs(ea) + [g] + Glyphs(eb)
  {
    var with := ea + [GlyphEntry(g)] + eb;
    assert Pairs(with) == Pairs(ea + eb) by {
      PairsAppend(ea + [GlyphEntry(g)], eb);
      PairsAppend(ea, [GlyphEntry(g)]);
      PairsAppend(ea, eb);
      assert Pairs([GlyphEntry(g)]) == [] by { assert [GlyphEntry(g)][1..] == []; }
    }
    assert Glyphs(with) == Glyphs(ea) + [g] + Glyphs(eb) by {
      GlyphsAppend(ea + [GlyphEntry(g)], eb);
      GlyphsAppend(ea, [GlyphEntry(g)]);
      assert Glyphs([GlyphEntry(g)]) == [g] by { assert [GlyphEntry(g)][1..] == []; }
    }
    SamePairsSameProperties(with, ea + eb);
  }

  /** The outcome of validation depends on the property tuples only. */
  lemma SamePairsSameProperties(x: seq<Entry>, y: seq<Entry>)
    requires Pairs(x) == Pairs(y)
    ensures Partition(x).Success? <==> Partition(y).Success?
    ensures Partition(x).Success? ==> Partition(x).value.properties == Partition(y).value.properties
                                      && Partition(x).value.glyphs == Glyphs(x)
  {
  }

  /** Ink rows of unequal lengths make the glyph entry a dropped null, not an error. */
  lemma RaggedInkDropped(labels: seq<RawLabel>, rows: seq<RawText>, props: seq<RawEntry>, i: nat)
    requires i < |rows| && rows[i].Text? && rows[0].Text? && |rows[i].s| != |rows[0].s|
    ensures ParseEntry(RawGlyph(labels, InkRows(rows), props)).None?
  {
  }

  /** A glyph whose labels are all missing or malformed is dropped. */
  lemma NoLabelsDropped(labels: seq<RawLabel>, ink: RawInk, props: seq<RawEntry>)
    requires forall i :: 0 <= i < |labels| ==> ParseLabel(labels[i]).None?
    ensures ParseEntry(RawGlyph(labels, ink, props)).None?
  {
    NoSurvivorsRejected(labels);
  }

  /** A glyph with one unacceptable glyph property (a non-number `shiftUp`, say) is dropped. */
  lemma BadGlyphPropertyDropped(labels: seq<RawLabel>, ink: RawInk, props: seq<RawEntry>, i: nat)
    requires i < |props| && (!props[i].RawProperty? || ParseProperty(props[i].key, props[i].val).None?)
    ensures ParseEntry(RawGlyph(labels, ink, props)).None?
  {
  }

  /** What `glyphParser` guarantees of every glyph it accepts: a label, and ink of four bytes per pixel. */
  predicate Accepted(g: GlyphSource) {
    |g.labels| > 0 && (g.ink.Bitmap? ==> |g.ink.raster.data| == 4 * g.ink.raster.width * g.ink.raster.height)
  }

  lemma {:induction false} GlyphsAccepted(entries: seq<Entry>)
    requires forall i :: 0 <= i < |entries| && entries[i].GlyphEntry? ==> Accepted(entries[i].glyph)
    ensures forall i :: 0 <= i < |Glyphs(entries)| ==> Accepted(Glyphs(entries)[i])
  {
    if entries != [] {
      assert forall i :: 0 < i < |entries| ==> entries[i] == entries[1..][i - 1];
      GlyphsAccepted(entries[1..]);
    }
  }

  lemma {:induction false} EntriesAccepted(es: seq<RawEntry>)
    ensures forall i :: 0 <= i < |Entries(es)| && Entries(es)[i].GlyphEntry? ==> Accepted(Entries(es)[i].glyph)
  {
    if es != [] {
      EntriesAccepted(es[1..]);
    }
  }

  /** Every glyph of a normalised document has at least one label (the "Glyph has no valid labels" refinement) and well-sized ink. */
  lemma NormalizedGlyphsAccepted(es: seq<RawEntry>)
    requires Normalize(es).Success?
    ensures forall i :: 0 <= i < |Normalize(es).value.glyphs| ==> Accepted(Normalize(es).value.glyphs[i])
  {
    EntriesAccepted(es);
    GlyphsAccepted(Entries(es));
  }

  /**
   * The last property entry of a document decides its key: when it names a
   * known font property with a value that property refuses, the load fails
   * and the error names the key, whatever came before.
   */
  lemma LastPropertyRefusedFatal(a: seq<RawEntry>, key: RawText, val: RawText, j: nat)
    requires ParseProperty(key, val).Some?
    requires j < |FontKeys()| && FontKeys()[j].0 == ParseProperty(key, val).value.0
    requires !Accepts(FontKeys()[j].1, ParseProperty(key, val).value.1)
    ensures Normalize(a + [RawProperty(key, val)]).Failure?
    ensures ParseProperty(key, val).value.0 in Normalize(a + [RawProperty(key, val)]).error
  {
    var p := ParseProperty(key, val).value;
    var e := RawProperty(key, val);
    EntriesAppend(a, [e]);
    assert Entries([e]) == [PropertyEntry(p.0, p.1)] by { assert [e][1..] == []; }
    PairsAppend(Entries(a), [PropertyEntry(p.0, p.1)]);
    assert Pairs([PropertyEntry(p.0, p.1)]) == [p] by { assert [PropertyEntry(p.0, p.1)][1..] == []; }
    var pairs := Pairs(Entries(a)) + [p];
    assert pairs[..|pairs| - 1] == Pairs(Entries(a));
    var m := FromEntries(pairs);
    assert p.0 in m && m[p.0] == p.1;
  }

  /**
   * A `defaultChar` written as bare decimal digits is coerced to a number before
   * validation, and no `defaultChar` shape accepts a number: the load fails.
   */
  lemma DecimalDefaultCharFatal(a: seq<RawEntry>, key: RawText, digits: JsString)
    requires |digits| > 0 && AllDigits(digits, 10)
    requires ParseProperty(key, Text(digits)).Some? && ParseProperty(key, Text(digits)).value.0 == Lit("defaultChar")
    ensures Normalize(a + [RawProperty(key, Text(digits))]).Failure?
    ensures Lit("defaultChar") in Normalize(a + [RawProperty(key, Text(digits))]).error
  {
    DecimalDefaultCharRefused(key, digits);
    LastPropertyRefusedFatal(a, key, Text(digits), 14);
  }

  /** The coerced number is refused by the `defaultChar` field, the last of the schema's keys. */
  lemma DecimalDefaultCharRefused(key: RawText, digits: JsString)
    requires |digits| > 0 && AllDigits(digits, 10)
    requires ParseProperty(key, Text(digits)).Some? && ParseProperty(key, Text(digits)).value.0 == Lit("defaultChar")
    ensures 14 < |FontKeys()| && FontKeys()[14].0 == ParseProperty(key, Text(digits)).value.0
    ensures !Accepts(FontKeys()[14].1, ParseProperty(key, Text(digits)).value.1)
  {
    NumericLooking(digits, digits, false);
    var p := ParseProperty(key, Text(digits)).value;
    assert p.1 == Coerce(digits) && p.1.PNumber?;
    DefaultCharKey();
    assert !Accepts(DefaultCharField, p.1);
  }
}
