# canvas-bitfont: a verified model of the font loader and text layout

canvas-bitfont renders text with bitmap fonts written in the yaff format. It
has three stages, and the model follows each one:

- **Normalising the document.** An external grammar parses the document into an
  untyped tree of entries. A validation schema turns that tree into the font's
  properties and a list of glyph sources:
  - code points are coerced from decimal, `0x` and `0o` strings;
  - `U+hex` and `'x'` labels are recognised;
  - ink rows become an RGBA buffer;
  - property keys are normalised and camel-cased, and their values coerced.

  A malformed label, glyph or entry is dropped and never aborts the load. The
  one fatal outcome is a known font property holding a value its field refuses.
- **Loading the font.** Each glyph source is compiled into a glyph with its
  metrics. The labels of all glyphs then fill four maps (code point, unicode,
  character, tag) and a default pointer, in document order. Finally the
  `defaultChar` property may redirect the default.
- **Laying out a line.** A string (split into UTF-16 code units) or an array of
  codes is resolved element by element through the lookup chains. Elements
  with no glyph are skipped. The line is measured (width, height, vertical
  offset), and each glyph is drawn at the pen, which advances by the glyph's
  bounding width.

The model has these modules:

- `Js` models JavaScript strings as sequences of UTF-16 code units. It also
  models numbers with NaN, `parseInt`, `parseFloat` and ToUint16.
- `ParseTree` is the untyped tree the grammar produces, including the shapes
  the schema must reject.
- `CodePoints`, `Labels`, `Ink`, `Properties` and `Schema` model `src/schema.ts`.
  They are pure functions, as that file is.
- `Glyphs`, `Resolver`, `Layout` and `Fonts` model `src/Font.ts`.
  - `Fonts.Font` is a class whose fields are the ones `Font.load` updates in
    place.
  - Its loops (compiling glyphs, entering labels, `reduceString`, the pen loop
    of `fillText`) are methods with loop invariants.
  - Each of these methods is proved against a specification function
    (`Assembled`, `ResolveDefault`, `Measure`, `Run`, `Placed`).
  - Separate lemmas prove what those functions mean.
- Glyphs are named by their position in the font's glyph list, so a map entry
  is a `nat`.

Behaviours of the code that the model keeps as they are:

- Ink rows of unequal length make `inkParser` fail. Through `fontEntry`'s
  `.catch(null)` this only drops the glyph; it does not abort the load.
- `src/Font.ts` never synthesises a space glyph and never adds spacing between
  glyphs. A space with no glyph of its own is skipped like any other
  unresolved element.
- The tag pattern in `Font.load` (`/^[Uu]\+[0-9A-F]+$/`) has no `i` flag.
  So a tag `U+41` also fills the unicode map, and a tag `U+4a` does not.
- A `defaultChar` written as bare decimal digits is coerced to a number by
  `propertyParser`. No branch of `defaultCharOptions` accepts a number, so the
  load fails (`Schema.DecimalDefaultCharFatal`). Hexadecimal, octal and `U+hex`
  spellings are strings, and they do select a default.
- `replace(/'"/g, '')` removes only the two-unit sequence `'"`, never a lone
  quote. Quoted escapes still decode correctly: `substring(2)` of `"U+41"` is
  `+41"`, and `parseInt` reads `+41` as 0x41 (`Properties.QuotedEscapeValue`).
- A code-point label with several codes (a multi-code sequence) enters only its
  first code into the code-point map (`Resolver.KeysOf`).
- `cellSize`, `boundingBox` and `rasterSize` are checked only to be strings.
  Their `WxH` shape is not validated.

## Model

| member | source | states |
|---|---|---|
| `Js.ParseIntDigits` | src/schema.ts:8-16 | `parseInt` of a non-empty string of digits of the radix is exactly the string's digit value |
| `Js.UpperKeepsValue` | src/schema.ts:74 | upper-casing a digit string keeps it a digit string of the same radix with the same value |
| `Js.ParseFloatDigits` | src/schema.ts:63 | `parseFloat` of an unsigned decimal integer string reads back that integer exactly |
| `Js.ParseFloatNegative` | src/schema.ts:63 | `parseFloat` of `-` followed by decimal digits reads back the negated integer exactly |
| `Js.ToUint16` | src/Font.ts:125 | `String.fromCharCode` keeps an integral code in 0..65535 unchanged (other values truncate and wrap) |
| `CodePoints.CodePointValue` | src/schema.ts:4-17 | a value exists exactly when one of the decimal, `0x` or `0o` patterns matches; the value is NaN only for an octal body that starts with 8 |
| `CodePoints.DecimalRoundTrip` | src/schema.ts:5-8 | the decimal rendering of every n >= 0 is read back as n |
| `CodePoints.DecimalValue` | src/schema.ts:5-8 | every non-empty string of decimal digits, leading zeros included, is read as its base-10 value |
| `CodePoints.HexRoundTrip` | src/schema.ts:9-12 | `0x` followed by the hexadecimal rendering of every n >= 0 is read back as n |
| `CodePoints.HexEitherCase` | src/schema.ts:9-12 | hex digits of either case, after `0x` or `0X`, are read in base 16 |
| `CodePoints.OctalValue` | src/schema.ts:13-16 | an `0o`/`0O` body of digits 0-7 is read in base 8 |
| `CodePoints.OctalStopsAtEight` | src/schema.ts:13-16 | the pattern admits 8 but the reading stops there: `0o18` is 1 and `0o8` is NaN |
| `CodePoints.OctalStopsAtFirstEight` | src/schema.ts:13-16 | after `0o`/`0O`, octal digits followed by an 8 and any digits 0-8 read as the value of the digits before the first 8, or NaN when there are none |
| `Labels.CodePointValues` | src/schema.ts:101-104 | the values exist exactly when every element is a string that coerces, and value i is then the coercion of element i |
| `Labels.CharacterLabel` | src/schema.ts:67-85 | a character label is accepted exactly when its argument is a one-element array holding a `U+hex` escape (giving the upper-cased digits) or a string `'x'` with x not a line terminator (giving x); every other shape is refused |
| `Labels.CodePointLabel` | src/schema.ts:101-104 | a code-point label is accepted exactly when its argument is a non-empty array whose every string coerces; the label keeps all the coerced values, in order, the first being the coercion of the first string |
| `Labels.ParseLabel` | src/schema.ts:95-107 | non-objects, `missing` labels and labels of any other `type` give null; `codePoint` and `character` labels are read by their own parsers; a label is `default` exactly when its type is `default`, and a tag exactly when the type is `tag` and the label is a string, the tag's name being that string; a `tag` label whose label is not a string gives null |
| `Labels.ParseLabels` | src/schema.ts:108-111 | a label list survives exactly when at least one of its labels parses, and is then the parsed labels in order |
| `Labels.KeptAppend` | src/schema.ts:108-110 | filtering distributes over concatenation, so kept labels keep their relative order |
| `Labels.KeptExactly` | src/schema.ts:108-110 | a label is kept exactly when some raw label parses to it |
| `Labels.DroppedLabelVanishes` | src/schema.ts:105-110 | a label that does not parse changes nothing about the labels kept |
| `Labels.NoSurvivorsRejected` | src/schema.ts:108-111 | a list of labels none of which parses is refused |
| `Labels.UnicodeLabelValue` | src/schema.ts:67-77 | `[U+hex]` with either case of prefix and digits gives the upper-cased digits, which have no lower-case letter and the same value |
| `Labels.CharLabelValue` | src/schema.ts:78-84 | `'x'` gives the single unit x, for every x that is not a line terminator |
| `Ink.RowTexts` | src/schema.ts:114 | the rows pass exactly when every row is a string containing a `.` or `@` somewhere, and their texts are kept in order |
| `Ink.ParseInk` | src/schema.ts:113-130 | ink is the no-ink sentinel exactly for the string `-`; a row array is accepted exactly when it is non-empty, every row matches and all rows are as long as the first; the raster has one row per line, the first row's width, and four bytes per pixel |
| `Ink.ExpandLength` | src/schema.ts:122-128 | expanding rows of equal width gives 4 x width x height bytes |
| `Ink.ExpandAt` | src/schema.ts:122-128 | the byte of channel c of pixel (row, column) sits at offset 4 x (row x width + column) + c and comes from that ink character |
| `Ink.BitmapPixel` | src/schema.ts:113-130 | in an accepted raster every byte of pixel (r, c) is 255 when row r's character c is `@` and 0 otherwise |
| `Properties.NormalizeKey` | src/schema.ts:56 | normalising keeps the length, turns `_` into `-` and each upper-case letter into its lower-case letter, keeps every other unit (`-`, `.`, lower-case letters, digits and the rest) unchanged, and leaves no `_` and no upper-case letter |
| `Properties.CamelCase` | src/schema.ts:62 | a camel-cased key holds only letters and digits |
| `Properties.Coerce` | src/schema.ts:60-63 | a value stays a string exactly when it holds a unit outside `0-9 . -`, and is then unchanged |
| `Properties.ParseProperty` | src/schema.ts:50-65 | a property parses exactly when its key is a string over `[0-9A-z\-_.]` and its value a string; the pair is the camel-cased normalised key, which has no separator, with the coerced value |
| `Properties.FromEntriesLastWins` | src/schema.ts:112 | every key of the folded object comes from some pair, and a key holds the value of its last pair |
| `Properties.AsNumber` | src/schema.ts:35-37 | `z.number()` accepts exactly the numbers that are not NaN, and returns the number unchanged |
| `Properties.AsSpacing` | src/schema.ts:3 | the spacing enum accepts exactly the strings `character-cell`, `monospace`, `proportional` and `multi-cell`, each giving its own value |
| `Properties.AsDpi` | src/schema.ts:39 | `dpi` is refused exactly when it is NaN; a string passes through as that string and a number as that number |
| `Properties.AsDefaultChar` | src/schema.ts:18-23 | no number is ever accepted; a string that coerces as a code point gives that code; a `U+hex` escape gives a code; `default` and `missing` give their keywords; anything else is refused |
| `Properties.RefusedKeys` | src/schema.ts:24-42 | a key is listed exactly when it is known, present, and holds a value its field refuses |
| `Properties.ValidateFontProperties` | src/schema.ts:24-42 | validation fails exactly when some known key holds a value its field refuses, the error then being the refused keys in schema order; on success the properties are each known key's accepted value |
| `Properties.SpacingOutsideEnumFatal` | src/schema.ts:27 | a `spacing` outside the four enum values fails validation, and the error names `spacing` |
| `Properties.NumericDefaultCharFatal` | src/schema.ts:40 | a numeric `defaultChar` fails validation, and the error names `defaultChar` |
| `Properties.UnknownKeyIgnored` | src/schema.ts:24-42 | adding or changing a key the schema does not know never changes the validation outcome |
| `Properties.IntegerValueCoerced` | src/schema.ts:60-63 | a value made of digits with an optional leading minus is coerced to exactly that integer |
| `Properties.EmptyValueIsNaN` | src/schema.ts:60-63 | an empty value looks numeric and is coerced to NaN |
| `Properties.KnownKeySpellings` | src/schema.ts:53-62 | the document spellings `shift-up`, `left-bearing`, `right-bearing` and `default-char` normalise to the schema keys `shiftUp`, `leftBearing`, `rightBearing` and `defaultChar` |
| `Properties.HyphenatedCamel` | src/schema.ts:62 | two lower-case words joined by `-` camel-case to the first word followed by the second with its first letter upper-cased |
| `Properties.RemoveQuotePairsNoApostrophe` | src/schema.ts:22 | without an apostrophe, the quote stripping leaves a string unchanged |
| `Properties.QuotedEscapeValue` | src/schema.ts:18-23 | a `U+hex` escape, bare or in double quotes, is accepted as the code equal to its hex digits' value |
| `Properties.ValidateGlyphProps` | src/schema.ts:43-49 | glyph properties are refused exactly when a bearing or `shiftUp` is present and not a number; each field is set exactly when its key is present, and then holds that key's number |
| `Schema.PropertyPairs` | src/schema.ts:112 | a property array parses exactly when every element is an acceptable property, and then pair i is the parse of element i |
| `Schema.ParseGlyph` | src/schema.ts:132-138 | a glyph is accepted exactly when its labels, ink and properties all are; it keeps the kept labels (at least one), the parsed ink, and the validated glyph properties of its folded property block |
| `Schema.ParseEntry` | src/schema.ts:140 | an entry becomes a glyph exactly when it is a glyph object that parses, and is then that parsed glyph; it becomes a property exactly when it is a property that parses, and is then that key and value; an entry of any other shape is dropped |
| `Schema.Normalize` | src/schema.ts:141-153 | the load fails exactly when some known key of the folded properties holds a value its field refuses, naming the refused keys; otherwise the document has the validated properties and the parsed glyphs in document order |
| `Schema.EntriesSplit` | src/schema.ts:140-143 | one entry in the middle of a document contributes exactly its own parse, or nothing |
| `Schema.DroppedEntryHarmless` | src/schema.ts:140-143 | an entry that does not parse leaves the outcome of the whole document unchanged |
| `Schema.GlyphEntryNeverFatal` | src/schema.ts:141-153 | a glyph entry never decides failure: with it the document succeeds exactly when it does without it, with the same properties and the glyph in its place |
| `Schema.RaggedInkDropped` | src/schema.ts:116-118 | ink rows of unequal length drop the glyph entry instead of failing the load |
| `Schema.NoLabelsDropped` | src/schema.ts:134-138 | a glyph none of whose labels parses is dropped |
| `Schema.BadGlyphPropertyDropped` | src/schema.ts:136 | a glyph with one unacceptable property entry is dropped |
| `Schema.NormalizedGlyphsAccepted` | src/schema.ts:138-151 | every glyph of a normalised document has at least one label and four bytes of ink per pixel |
| `Schema.LastPropertyRefusedFatal` | src/schema.ts:152 | when the last property of a document names a known key with a value its field refuses, the load fails naming that key, whatever came before |
| `Schema.DecimalDefaultCharFatal` | src/schema.ts:18-23 | a `defaultChar` written as bare decimal digits makes the load fail, naming `defaultChar` |
| `Glyphs.Compile` | src/Font.ts:23-47 | a compiled glyph keeps its metric invariant (bounding box = raster + bearings, height + size of shift, four bytes per pixel); it is blank exactly for no-ink sources, and it keeps its labels |
| `Glyphs.BlankGlyphMetrics` | src/Font.ts:30-36 | a blank glyph has no raster: its bounding width is its two bearings and its bounding height the size of its shift |
| `Glyphs.GlyphMetrics` | src/Font.ts:29-36 | an inked glyph takes its image and raster size from the ink; for every glyph, blank or inked, a bearing is the glyph's own or 0, and the glyph's own shift wins over the font's |
| `Glyphs.GlyphPropertyReachesGlyph` | src/Font.ts:32-34 | through the glyph schema and the compiled glyph, the last number written in a glyph's property block under a key that normalises to `leftBearing`, `shiftUp` or `rightBearing` (the spellings `left-bearing`, `shift-up` and `right-bearing` do, by `Properties.KnownKeySpellings`) is the compiled glyph's field of that name |
| `Glyphs.BoundingHeightCoversRaster` | src/Font.ts:35-36 | the bounding height is at least the raster height and at least the raster height plus the shift |
| `Resolver.AddLabelEffect` | src/Font.ts:104-117 | entering a label makes exactly its slots name the glyph and leaves every other slot as it was |
| `Resolver.KeysOfCount` | src/Font.ts:104-117 | every label writes one slot, except a `U+HEX` tag, which writes its tag slot and a unicode slot |
| `Resolver.AddLabelsEffect` | src/Font.ts:103-118 | after a glyph's labels, a slot names the glyph exactly when one of its labels writes it |
| `Resolver.AssembledLastWriter` | src/Font.ts:102-119 | after assembly a slot is empty exactly when no glyph writes it, and names glyph i exactly when i is the last glyph in document order that writes it |
| `Resolver.AssembledInRange` | src/Font.ts:102-119 | the assembled maps name only glyphs that exist |
| `Resolver.UnicodeLabelAndTagAgree` | src/Font.ts:106-115 | for upper-case hex digits, the tag `U+HEX` is an escape, and it writes the one unicode slot that the character label `[U+HEX]` writes, keyed by the digits' value |
| `Resolver.FirstHit` | src/Font.ts:132-153 | a lookup chain misses exactly when every slot misses; otherwise it gives the first slot that hits |
| `Resolver.LookupCharacterNone` | src/Font.ts:132-144 | a character lookup fails exactly when the character, unicode, code-point and tag maps all miss and there is no default |
| `Resolver.CharacterMapWins` | src/Font.ts:133-134 | a character-map hit on the first unit wins over every other map |
| `Resolver.UnicodeMapSecond` | src/Font.ts:135-137 | without a character-map hit, the unicode map on the first unit's code comes next |
| `Resolver.TagMapFourth` | src/Font.ts:140-141 | the tag map is consulted on the whole string only after the character and both code maps miss |
| `Resolver.LookupCharcodeNone` | src/Font.ts:146-153 | a code lookup fails exactly when both code maps miss and there is no default |
| `Resolver.CodePointMapWins` | src/Font.ts:147-148 | for a code lookup the code-point map wins over the unicode map |
| `Resolver.LookupCharcodeIgnoresCharactersAndTags` | src/Font.ts:146-153 | a code lookup never reads the character map or the tag map |
| `Resolver.NumericDefaultIsLookup` | src/Font.ts:124-127 | a numeric `defaultChar` makes the default exactly what a character lookup of `String.fromCharCode(code)` finds |
| `Resolver.DefaultKeptOtherwise` | src/Font.ts:120-128 | `default`, an absent property, or `missing` with no glyph tagged `missing` leave the default untouched |
| `Resolver.MissingTakesTag` | src/Font.ts:121-123 | `missing` with a glyph tagged `missing` makes that glyph the default |
| `Resolver.ResolveDefaultInRange` | src/Font.ts:120-128 | resolving the default keeps every slot naming an existing glyph and changes no slot but the default |
| `Layout.ResolvedIndicesAppend` | src/Font.ts:167-171 | resolving a run distributes over concatenation |
| `Layout.UnresolvedContributesNothing` | src/Font.ts:171 | an element without a glyph contributes nothing to the run |
| `Layout.ResolvedContributesItsGlyph` | src/Font.ts:169-177 | an element that resolves to glyph g contributes exactly g, in its place |
| `Layout.TotalWidthAppend` | src/Font.ts:175 | widths add up over concatenation |
| `Layout.MaxHeight` | src/Font.ts:176 | the line height is at least 0 and at least every glyph's bounding height, and is 0 or one of them |
| `Layout.MaxLift` | src/Font.ts:172 | the vertical offset is at least 0 and at least every glyph's raster height plus shift, and is 0 or one of them |
| `Layout.MeasureAppend` | src/Font.ts:172-177 | one more glyph widens the line by its bounding width and raises height and offset to its own when they are larger |
| `Layout.PlacedWithinLine` | src/Font.ts:202 | no glyph's top is drawn above the top of the line |
| `Fonts.Font.constructor` | src/Font.ts:61-89 | the new font holds the document's properties and glyph sources, no compiled glyphs and empty maps |
| `Fonts.Font.CompileGlyphs` | src/Font.ts:96-101 | every source is compiled, in order, with the font's `shiftUp` (or 0) as fallback shift; maps and properties are unchanged |
| `Fonts.Font.Enter` | src/Font.ts:104-117 | one label entered: the index becomes the index with that label's slots naming the glyph; nothing else changes |
| `Fonts.Font.AssembleMaps` | src/Font.ts:102-119 | the nested label loop leaves exactly the assembled index, which names only existing glyphs |
| `Fonts.Font.ApplyDefaultChar` | src/Font.ts:120-128 | only the default changes, to the resolved default |
| `Fonts.Font.ReduceString` | src/Font.ts:164-182 | the bounding box is the measure of the glyphs the elements resolve to: width sum, largest height, largest lift |
| `Fonts.Font.BoundingBoxForString` | src/Font.ts:155-158 | a string is measured unit by unit |
| `Fonts.Font.BoundingBoxForCharCodeArray` | src/Font.ts:160-162 | a code array is measured code by code |
| `Fonts.Font.FillText` | src/Font.ts:184-213 | the canvas is the line's bounding box; draw k is the k-th resolved glyph, at the width of the glyphs before it plus its left bearing, with its top `rasterHeight + shiftUp` above the baseline and never above the canvas top; the pen ends at the canvas width |
| `Fonts.Font.PlaceGlyphs` | src/Font.ts:196-207 | the pen loop produces one draw per resolved glyph, each at the pen after the glyphs before it |
| `Fonts.Pen` | src/Font.ts:196-207 | the pen loop over the elements produces exactly the placed draws of the resolved glyphs |
| `Fonts.Reduce` | src/Font.ts:164-182 | the `reduceString` loop yields exactly the measure of the resolved glyphs |
| `Fonts.RenderingOfRun` | src/Font.ts:188-212 | a measured and placed run gives a rendering whose draw k sits after the first k glyphs and whose pen ends at the canvas width |
| `Fonts.Load` | src/Font.ts:91-130 | loading fails exactly when normalisation does, with the same refused keys; otherwise the new font holds the compiled glyphs, the assembled maps and the resolved default |

## Left out

- The yaff grammar (`src/parser.mjs`) is not part of this model. Its output is
  taken as the `ParseTree` datatype, and syntax errors and their formatting
  are left out.
- Canvas and images are left out:
  - creating the offscreen canvas and the failure when no 2D context exists;
  - `createImageBitmap`;
  - `clearRect`, `drawImage`, and the `source-in` fill that recolours the line.

  A rendering is modelled as the canvas size plus the list of draws, in order.
- The truncation of fractional canvas sizes to integers when `canvas.width` and
  `canvas.height` are set.
- Logging (`console.log`, `console.error`) and how a validation error is
  formatted are left out. A failed load returns the keys that were refused.
- `Promise.all` and `async`: glyphs are compiled in order. Compilation is
  independent per glyph, so the order is not observable.
- IEEE-754 doubles: rounding, -0 and Infinity are left out. Finite numbers are
  exact reals, and NaN is kept.
- `parseInt` does not strip a `0x` prefix in base 16 here. Every base-16 call
  receives hex digits, at most with a sign in front or a quote behind.
- `parseInt` and `parseFloat` do not skip leading white space here. No caller
  in the core can pass white space, because every pattern excludes it.
  `parseFloat` has no exponent or `Infinity` form. Those are unreachable
  because values are coerced only when made of `0-9 . -`.
- `toCamelCase` from the standard text library is modelled for the
  lower-cased ASCII keys that reach it. Words are runs of letters or of
  digits.
- A glyph whose `props` field is absent is not representable in the parse
  tree. `.default({})` on the glyph properties cannot be reached, because
  `Object.fromEntries` always yields an object.
- The parse tree has only the shapes the grammar produces. A glyph whose
  `labels` or `props` is not an array, and a glyph object that carries
  `type: 'property'`, cannot be written in it; the schema would drop each of
  them.
- `Js.ToUint16`: its contract states only the integral in-range case. The
  truncation and wrap of other values is in its body.
- `Fonts.Font.ReduceString`, `Fonts.Font.FillText`: the mutable
  `vertOffset` closure variable and the `...sum` spread are modelled as plain
  loop variables.
- The documentation script under `scripts/` is not part of this model.
