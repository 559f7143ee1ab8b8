/**
 * The untyped parse tree handed over by the external grammar: an array of
 * entries, each a property, a glyph or something malformed. Every field the
 * normaliser inspects is represented, including the shapes it must reject.
 */
module ParseTree {
  import opened Js

  /** A field that should hold a string. */
  datatype RawText = Text(s: JsString) | NotText

  /** The `label` field of a raw label: absent, a string, an array, or anything else. */
  datatype RawArg = ArgAbsent | ArgText(s: JsString) | ArgList(items: seq<RawText>) | ArgOther

  /** A raw label object `{type, label}`, or a value that is not an object at all. */
  datatype RawLabel = RawLabel(kind: RawText, arg: RawArg) | NotAnObject

  /** The `ink` field of a glyph: an array of rows, a bare string (the `-` sentinel), or anything else. */
  datatype RawInk = InkRows(rows: seq<RawText>) | InkText(s: JsString) | InkOther

  /** One entry of the parse tree. A glyph's `props` is an array of property entries. */
  datatype RawEntry =
    | RawProperty(key: RawText, val: RawText)
    | RawGlyph(labels: seq<RawLabel>, ink: RawInk, props: seq<RawEntry>)
    | Malformed
}
