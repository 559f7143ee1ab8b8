/**
 * Measuring and placing a run of text: each element is resolved to a glyph
 * (elements that resolve to none are skipped), the run's width is the sum of
 * the glyphs' bounding widths, its height the largest bounding height, and
 * its vertical offset the highest top of a raster above the baseline.
 */
module Layout {
  import opened Wrappers
  import opened Js
  import opened Resolver
  import opened Glyphs

  /** One element of a run: a one-unit string from `split('')`, or a number of a code array. */
  datatype Item = CharItem(s: JsString) | CodeItem(code: Number)

  /** The text argument of `fillText`: a string or an array of codes. */
  datatype Text = StringText(s: JsString) | CodesText(codes: seq<Number>)

  /** `string.split('')` gives one element per code unit; a code array is taken as it is. */
  function Items(text: Text): seq<Item> {
    match text
    case StringText(s) => seq(|s|, i requires 0 <= i < |s| => CharItem([s[i]]))
    case CodesText(codes) => seq(|codes|, i requires 0 <= i < |codes| => CodeItem(codes[i]))
  }

  /** A string element is looked up as a character, a number as a character code. */
  function Resolve(ix: Index, item: Item): Option<nat> {
    match item
    case CharItem(s) => LookupCharacter(ix, s)
    case CodeItem(code) => LookupCharcode(ix, code)
  }

  /** The glyphs the elements resolve to, in order; elements without a glyph are skipped. */
  function ResolvedIndices(ix: Index, items: seq<Item>): (r: seq<nat>)
    ensures |r| <= |items|
  {
    if items == [] then []
    else
      var front := ResolvedIndices(ix, items[..|items| - 1]);
      match Resolve(ix, items[|items| - 1])
      case Some(g) => front + [g]
      case None => front
  }

  /** The glyphs at the given positions. */
  function Run(glyphs: seq<Glyph>, indices: seq<nat>): (r: seq<Glyph>)
    requires forall i :: 0 <= i < |indices| ==> indices[i] < |glyphs|
    ensures |r| == |indices|
  {
    seq(|indices|, i requires 0 <= i < |indices| => glyphs[indices[i]])
  }

  /** `Math.max` of two numbers. */
  function Max(a: real, b: real): (r: real)
    ensures r >= a && r >= b && (r == a || r == b)
  {
    if a >= b then a else b
  }

  /** The sum of the bounding widths. */
  function TotalWidth(gs: seq<Glyph>): real {
    if gs == [] then 0.0 else TotalWidth(gs[..|gs| - 1]) + gs[|gs| - 1].boundingWidth
  }

  /** The largest bounding height, starting from 0. */
  function MaxHeight(gs: seq<Glyph>): (r: real)
    ensures r >= 0.0
    ensures forall i :: 0 <= i < |gs| ==> gs[i].boundingHeight <= r
    ensures r == 0.0 || exists i :: 0 <= i < |gs| && gs[i].boundingHeight == r
  {
    if gs == [] then 0.0
    else
      var n := |gs| - 1;
      var front := MaxHeight(gs[..n]);
      assert forall i :: 0 <= i < n ==> gs[..n][i] == gs[i];
      Max(front, gs[n].boundingHeight)
  }

  /** The largest `rasterHeight + shiftUp`, starting from 0. */
  function MaxLift(gs: seq<Glyph>): (r: real)
    ensures r >= 0.0
    ensures forall i :: 0 <= i < |gs| ==> gs[i].rasterHeight as real + gs[i].shiftUp <= r
    ensures r == 0.0 || exists i :: 0 <= i < |gs| && gs[i].rasterHeight as real + gs[i].shiftUp == r
  {
    if gs == [] then 0.0
    else
      var n := |gs| - 1;
      var front := MaxLift(gs[..n]);
      assert forall i :: 0 <= i < n ==> gs[..n][i] == gs[i];
      Max(front, gs[n].rasterHeight as real + gs[n].shiftUp)
  }

  /** The bounding box of a text line. */
  datatype Bounds = Bounds(width: real, height: real, vertOffset: real)

  /** What `reduceString` computes for the glyphs of a run. */
  function Measure(gs: seq<Glyph>): Bounds {
    Bounds(TotalWidth(gs), MaxHeight(gs), MaxLift(gs))
  }

  /** One `drawImage` call: which glyph, and where its image's top-left corner goes. */
  datatype Draw = Draw(glyph: nat, x: real, y: real)

  /** What `fillText` produces: the canvas size, the vertical offset it returns, and the images drawn in order. */
  datatype Rendering = Rendering(width: real, height: real, verticalOffset: real, draws: seq<Draw>)

  /** Widths add up over concatenation. */
  lemma {:induction false} TotalWidthAppend(a: seq<Glyph>, b: seq<Glyph>)
    ensures TotalWidth(a + b) == TotalWidth(a) + TotalWidth(b)
  {
    if b != [] {
      var n := |b| - 1;
      assert (a + b)[..|a + b| - 1] == a + b[..n];
      TotalWidthAppend(a, b[..n]);
    } else {
      assert a + b == a;
    }
  }

  /** Resolving one more element adds its glyph, if it has one. */
  lemma ResolvedIndicesStep(ix: Index, items: seq<Item>, i: nat)
    requires i < |items|
    ensures ResolvedIndices(ix, items[..i + 1])
         == ResolvedIndices(ix, items[..i]) + (if Resolve(ix, items[i]).Some? then [Resolve(ix, items[i]).value] else [])
  {
    assert items[..i + 1][..i] == items[..i];
    assert items[..i + 1][i] == items[i];
  }

  /** Resolution distributes over concatenation. */
  lemma {:induction false} ResolvedIndicesAppend(ix: Index, a: seq<Item>, b: seq<Item>)
    ensures ResolvedIndices(ix, a + b) == ResolvedIndices(ix, a) + ResolvedIndices(ix, b)
  {
    if b != [] {
      var n := |b| - 1;
      assert (a + b)[..|a + b| - 1] == a + b[..n];
      assert (a + b)[|a + b| - 1] == b[n];
      ResolvedIndicesAppend(ix, a, b[..n]);
    } else {
      assert a + b == a;
    }
  }

  /** An element that resolves to no glyph contributes nothing to the run. */
  lemma UnresolvedContributesNothing(ix: Index, a: seq<Item>, item: Item, b: seq<Item>)
    requires Resolve(ix, item).None?
    ensures ResolvedIndices(ix, a + [item] + b) == ResolvedIndices(ix, a + b)
  {
    ResolvedIndicesAppend(ix, a + [item], b);
    ResolvedIndicesAppend(ix, a, [item]);
    ResolvedIndicesAppend(ix, a, b);
    assert ResolvedIndices(ix, [item]) == [] by { assert [item][..0] == []; }
  }

  /** An element that resolves to glyph g contributes exactly g, in its place. */
  lemma ResolvedContributesItsGlyph(ix: Index, a: seq<Item>, item: Item, b: seq<Item>, g: nat)
    requires Resolve(ix, item) == Some(g)
    ensures ResolvedIndices(ix, a + [item] + b) == ResolvedIndices(ix, a) + [g] + ResolvedIndices(ix, b)
  {
    ResolvedIndicesAppend(ix, a + [item], b);
    ResolvedIndicesAppend(ix, a, [item]);
    assert ResolvedIndices(ix, [item]) == [g] by { assert [item][..0] == []; }
  }

  /** Looking an element up in an index that stays within the glyph list gives a position within it. */
  lemma ResolveInRange(ix: Index, item: Item, n: nat)
    requires InRange(ix, n)
    ensures Resolve(ix, item).Some? ==> Resolve(ix, item).value < n
  {
    match item {
      case CharItem(s) => FirstHitInRange(ix, CharacterProbes(s), n);
      case CodeItem(code) => FirstHitInRange(ix, CharcodeProbes(code), n);
    }
  }

  lemma {:induction false} ResolvedIndicesInRange(ix: Index, items: seq<Item>, n: nat)
    requires InRange(ix, n)
    ensures forall i :: 0 <= i < |ResolvedIndices(ix, items)| ==> ResolvedIndices(ix, items)[i] < n
  {
    if items != [] {
      ResolvedIndicesInRange(ix, items[..|items| - 1], n);
      ResolveInRange(ix, items[|items| - 1], n);
    }
  }

  /** One more glyph widens the run by its bounding width and raises height and lift to its own when they are larger. */
  lemma MeasureAppend(gs: seq<Glyph>, g: Glyph)
    ensures Measure(gs + [g]) == Bounds(TotalWidth(gs) + g.boundingWidth, Max(MaxHeight(gs), g.boundingHeight),
                                        Max(MaxLift(gs), g.rasterHeight as real + g.shiftUp))
  {
    assert (gs + [g])[..|gs|] == gs;
  }

  /** The run of one more position is the run with that glyph appended. */
  lemma RunAppend(glyphs: seq<Glyph>, indices: seq<nat>, g: nat)
    requires forall i :: 0 <= i < |indices| ==> indices[i] < |glyphs|
    requires g < |glyphs|
    ensures Run(glyphs, indices + [g]) == Run(glyphs, indices) + [glyphs[g]]
  {
  }

  /** A prefix of a run is the run of the prefix. */
  lemma RunPrefix(glyphs: seq<Glyph>, indices: seq<nat>, k: nat)
    requires forall i :: 0 <= i < |indices| ==> indices[i] < |glyphs|
    requires k <= |indices|
    ensures Run(glyphs, indices)[..k] == Run(glyphs, indices[..k])
  {
  }

  /** The empty run measures (0, 0, 0). */
  lemma EmptyRun(ix: Index, glyphs: seq<Glyph>)
    ensures ResolvedIndices(ix, []) == []
    ensures Measure(Run(glyphs, [])) == Bounds(0.0, 0.0, 0.0)
  {
  }

  /** Every glyph of a run sits at or below the top of the line: its image's top is never above 0. */
  lemma PlacedWithinLine(gs: seq<Glyph>, k: nat)
    requires k < |gs|
    ensures MaxLift(gs) - gs[k].rasterHeight as real - gs[k].shiftUp >= 0.0
  {
  }
}
