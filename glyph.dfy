/**
 * A compiled glyph: its image and the metrics derived from its ink and its
 * glyph-level properties. Bearings default to 0; the vertical shift falls back
 * to the font's `shiftUp` (0 when the font sets none). A glyph whose ink is the
 * `-` sentinel is blank: it gets a 1x1 transparent placeholder image but
 * counts as having no raster at all.
 */
module Glyphs {
  import opened Wrappers
  import opened Js
  import opened ParseTree
  import opened Labels
  import opened Ink
  import opened Properties
  import opened Schema

  datatype Glyph = Glyph(
    image: Raster,
    rasterWidth: nat,
    rasterHeight: nat,
    boundingWidth: real,
    boundingHeight: real,
    leftBearing: real,
    rightBearing: real,
    shiftUp: real,
    labels: seq<Label>,
    blank: bool)

  function Abs(x: real): (r: real)
    ensures r >= 0.0 && (r == x || r == -x)
  {
    if x < 0.0 then -x else x
  }

  /** `new ImageData(1, 1)`: one transparent black pixel. */
  function Placeholder(): (r: Raster)
    ensures r.width == 1 && r.height == 1 && |r.data| == 4
  {
    Raster(1, 1, [0, 0, 0, 0])
  }

  /** The font-wide shift, `properties.shiftUp ?? 0`. */
  function GlobalShiftUp(properties: FontProperties): real {
    properties.shiftUp.GetOr(0.0)
  }

  /**
   * The invariant every glyph keeps: its bounding box is its raster widened by
   * both bearings and heightened by the size of its shift, and its image holds
   * four bytes per pixel.
   */
  predicate WellFormed(g: Glyph) {
    && g.boundingWidth == g.leftBearing + g.rasterWidth as real + g.rightBearing
    && g.boundingHeight == g.rasterHeight as real + Abs(g.shiftUp)
    && |g.image.data| == 4 * g.image.width * g.image.height
    && (g.blank ==> g.rasterWidth == 0 && g.rasterHeight == 0)
    && (!g.blank ==> g.rasterWidth == g.image.width && g.rasterHeight == g.image.height)
  }

  /** `Glyph.compile` followed by the constructor. */
  function Compile(src: GlyphSource, globalShiftUp: real): (g: Glyph)
    requires src.ink.Bitmap? ==> |src.ink.raster.data| == 4 * src.ink.raster.width * src.ink.raster.height
    ensures WellFormed(g)
    ensures g.blank <==> src.ink.NoInk?
    ensures g.labels == src.labels
  {
    var blank := src.ink.NoInk?;
    var image := if blank then Placeholder() else src.ink.raster;
    var rasterWidth := if blank then 0 else image.width;
    var rasterHeight := if blank then 0 else image.height;
    var leftBearing := src.props.leftBearing.GetOr(0.0);
    var rightBearing := src.props.rightBearing.GetOr(0.0);
    var shiftUp := src.props.shiftUp.GetOr(globalShiftUp);
    Glyph(image, rasterWidth, rasterHeight,
          leftBearing + rasterWidth as real + rightBearing,
          rasterHeight as real + Abs(shiftUp),
          leftBearing, rightBearing, shiftUp, src.labels, blank)
  }

  /**
   * A blank glyph has no raster: its bounding width is its two bearings and its
   * bounding height the size of its shift, whatever the placeholder image is.
   */
  lemma BlankGlyphMetrics(src: GlyphSource, globalShiftUp: real)
    requires src.ink.NoInk?
    ensures Compile(src, globalShiftUp).rasterWidth == 0 && Compile(src, globalShiftUp).rasterHeight == 0
    ensures Compile(src, globalShiftUp).boundingWidth == Compile(src, globalShiftUp).leftBearing + Compile(src, globalShiftUp).rightBearing
    ensures Compile(src, globalShiftUp).boundingHeight == Abs(Compile(src, globalShiftUp).shiftUp)
  {
  }

  /**
   * An inked glyph takes its raster size from the ink. For every glyph, blank
   * or inked, a bearing is the glyph's own or 0, and the glyph's own `shiftUp`
   * wins over the font's.
   */
  lemma GlyphMetrics(src: GlyphSource, globalShiftUp: real)
    requires src.ink.Bitmap? ==> |src.ink.raster.data| == 4 * src.ink.raster.width * src.ink.raster.height
    ensures src.ink.Bitmap? ==> Compile(src, globalShiftUp).rasterWidth == src.ink.raster.width
                                && Compile(src, globalShiftUp).rasterHeight == src.ink.raster.height
                                && Compile(src, globalShiftUp).image == src.ink.raster
    ensures Compile(src, globalShiftUp).leftBearing == if src.props.leftBearing.Some? then src.props.leftBearing.value else 0.0
    ensures Compile(src, globalShiftUp).rightBearing == if src.props.rightBearing.Some? then src.props.rightBearing.value else 0.0
    ensures Compile(src, globalShiftUp).shiftUp == if src.props.shiftUp.Some? then src.props.shiftUp.value else globalShiftUp
  {
  }

  /**
   * A glyph-level number written in the glyph's property block reaches the
   * compiled glyph: when property i is the last one whose key normalises to
   * `name`, the glyph's field of that name holds its value.
   */
  lemma GlyphPropertyReachesGlyph(labels: seq<RawLabel>, ink: RawInk, props: seq<RawEntry>, src: GlyphSource,
                                  i: nat, name: JsString, x: real, globalShiftUp: real)
    requires ParseGlyph(labels, ink, props) == Some(src)
    requires name == Lit("leftBearing") || name == Lit("shiftUp") || name == Lit("rightBearing")
    requires i < |props| && props[i].RawProperty? && ParseProperty(props[i].key, props[i].val) == Some((name, PNumber(Num(x))))
    requires forall j :: i < j < |props| && props[j].RawProperty? && ParseProperty(props[j].key, props[j].val).Some?
                         ==> ParseProperty(props[j].key, props[j].val).value.0 != name
    ensures src.ink.Bitmap? ==> |src.ink.raster.data| == 4 * src.ink.raster.width * src.ink.raster.height
    ensures name == Lit("leftBearing") ==> Compile(src, globalShiftUp).leftBearing == x
    ensures name == Lit("shiftUp") ==> Compile(src, globalShiftUp).shiftUp == x
    ensures name == Lit("rightBearing") ==> Compile(src, globalShiftUp).rightBearing == x
  {
    var pairs := PropertyPairs(props).value;
    assert pairs[i] == (name, PNumber(Num(x)));
    assert LastWithKey(pairs, i) by {
      forall j | i < j < |pairs| ensures pairs[j].0 != pairs[i].0 {
        assert Some(pairs[j]) == ParseProperty(props[j].key, props[j].val);
      }
    }
    FromEntriesLast(pairs, i);
  }

  /** The bounding box is never narrower than the raster plus bearings, nor lower than the raster. */
  lemma BoundingHeightCoversRaster(g: Glyph)
    requires WellFormed(g)
    ensures g.boundingHeight >= g.rasterHeight as real
    ensures g.boundingHeight >= 0.0
    ensures g.rasterHeight as real + g.shiftUp <= g.boundingHeight
  {
  }
}
