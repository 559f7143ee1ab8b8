/**
 * Glyph ink: a non-empty list of equally long rows, expanded to RGBA bytes
 * (opaque white for `@`, transparent black for anything else), or the `-`
 * sentinel meaning "no ink".
 */
module Ink {
  import opened Wrappers
  import opened Js
  import opened ParseTree

  /** An RGBA pixel buffer of the given size. */
  datatype Raster = Raster(width: nat, height: nat, data: seq<Byte>)

  /** Parsed ink: a raster, or the `-` sentinel. */
  datatype Ink = Bitmap(raster: Raster) | NoInk

  /** The row pattern `/[.@]+/` is unanchored: a row passes when it contains one `.` or `@` anywhere. */
  predicate RowMatches(row: JsString) {
    exists i :: 0 <= i < |row| && (row[i] == '.' as int || row[i] == '@' as int)
  }

  /** The value of each of the four bytes of the pixel drawn for one ink character. */
  function Intensity(u: Unit): Byte {
    if u == '@' as int then 255 else 0
  }

  function RowBytes(row: JsString): (r: seq<Byte>)
    ensures |r| == 4 * |row|
  {
    if row == [] then [] else [Intensity(row[0]), Intensity(row[0]), Intensity(row[0]), Intensity(row[0])] + RowBytes(row[1..])
  }

  /** The rows' pixels, row after row (`map` then `flat(2)`). */
  function Expand(rows: seq<JsString>): seq<Byte>
  {
    if rows == [] then [] else RowBytes(rows[0]) + Expand(rows[1..])
  }

  predicate Rectangular(rows: seq<JsString>)
    requires |rows| > 0
  {
    forall i :: 0 <= i < |rows| ==> |rows[i]| == |rows[0]|
  }

  /** The texts of all rows, when every row is a string matching the row pattern. */
  function RowTexts(rows: seq<RawText>): (r: Option<seq<JsString>>)
    ensures r.Some? <==> forall i :: 0 <= i < |rows| ==> rows[i].Text? && RowMatches(rows[i].s)
    ensures r.Some? ==> |r.value| == |rows| && forall i :: 0 <= i < |rows| ==> r.value[i] == rows[i].s
  {
    if rows == [] then Some([])
    else if rows[0].NotText? || !RowMatches(rows[0].s) then None
    else
      match RowTexts(rows[1..])
      case None => None
      case Some(rest) => Some([rows[0].s] + rest)
  }

  /** `ink: inkParser.or(z.literal('-'))`. */
  function ParseInk(raw: RawInk): (r: Option<Ink>)
    ensures r == Some(NoInk) <==> raw == InkText(Lit("-"))
    ensures raw.InkRows? ==>
      (r.Some? <==> |raw.rows| > 0 && (forall i :: 0 <= i < |raw.rows| ==> raw.rows[i].Text? && RowMatches(raw.rows[i].s))
                    && (forall i :: 0 <= i < |raw.rows| ==> |raw.rows[i].s| == |raw.rows[0].s|))
    ensures r.Some? && r.value.Bitmap? ==>
      raw.InkRows? && r.value.raster.height == |raw.rows| > 0 && r.value.raster.width == |raw.rows[0].s|
      && |r.value.raster.data| == 4 * r.value.raster.width * r.value.raster.height
  {
    match raw
    case InkText(s) => if s == Lit("-") then Some(NoInk) else None
    case InkOther => None
    case InkRows(rows) =>
      match RowTexts(rows)
      case None => None
      case Some(texts) =>
        if |texts| > 0 && Rectangular(texts) then
          ExpandLength(texts, |texts[0]|);
          Some(Bitmap(Raster(|texts[0]|, |texts|, Expand(texts))))
        else None
  }

  /** The byte offset of channel k of the pixel at (row, column) in a raster of the given width. */
  function Offset(width: nat, row: nat, column: nat, channel: nat): nat {
    4 * (row * width + column) + channel
  }

  lemma {:induction false} ExpandLength(rows: seq<JsString>, width: nat)
    requires forall i :: 0 <= i < |rows| ==> |rows[i]| == width
    ensures |Expand(rows)| == 4 * width * |rows|
  {
    if rows != [] {
      var rest := rows[1..];
      assert forall i :: 0 <= i < |rest| ==> rest[i] == rows[i + 1];
      ExpandLength(rest, width);
      assert |Expand(rows)| == 4 * width + |Expand(rest)|;
      MulSucc(4 * width, |rest|);
    }
  }

  /** One more row adds one row's bytes; kept apart so the nonlinear step does not see the sequence facts. */
  lemma MulSucc(a: nat, n: nat)
    ensures a * (n + 1) == a + a * n
  {
  }

  lemma {:induction false} RowBytesAt(row: JsString, column: nat, channel: nat)
    requires column < |row| && channel < 4
    ensures RowBytes(row)[4 * column + channel] == Intensity(row[column])
  {
    if column > 0 {
      RowBytesAt(row[1..], column - 1, channel);
    }
  }

  /** The four bytes of pixel (row, column) are 255 when that ink character is `@`, and 0 otherwise. */
  lemma {:induction false} ExpandAt(rows: seq<JsString>, width: nat, row: nat, column: nat, channel: nat)
    requires forall i :: 0 <= i < |rows| ==> |rows[i]| == width
    requires row < |rows| && column < width && channel < 4
    ensures Offset(width, row, column, channel) < |Expand(rows)|
    ensures Expand(rows)[Offset(width, row, column, channel)] == Intensity(rows[row][column])
  {
    ExpandLength(rows, width);
    if row == 0 {
      RowBytesAt(rows[0], column, channel);
    } else {
      ExpandAt(rows[1..], width, row - 1, column, channel);
      assert Offset(width, row, column, channel) == 4 * width + Offset(width, row - 1, column, channel) by {
        assert row * width == (row - 1) * width + width;
      }
    }
  }

  /**
   * An accepted raster: every byte of pixel (r, c) is 255 exactly when row r's
   * character c is `@`; any other character, `.` or not, is transparent.
   */
  lemma BitmapPixel(rows: seq<RawText>, raster: Raster, row: nat, column: nat, channel: nat)
    requires ParseInk(InkRows(rows)) == Some(Bitmap(raster))
    requires row < raster.height && column < raster.width && channel < 4
    ensures Offset(raster.width, row, column, channel) < |raster.data|
         && raster.data[Offset(raster.width, row, column, channel)] == (if rows[row].s[column] == '@' as int then 255 else 0)
  {
    assert RowTexts(rows).Some?;
    var texts := RowTexts(rows).value;
    assert |texts| > 0 && Rectangular(texts);
    assert raster == Raster(|texts[0]|, |texts|, Expand(texts));
    assert texts[row] == rows[row].s;
    ExpandAt(texts, |texts[0]|, row, column, channel);
  }
}
