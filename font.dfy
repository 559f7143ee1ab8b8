/**
 * The font object: the validated properties, the compiled glyphs, and the
 * four lookup maps plus the default glyph, filled by `Load` from the
 * normalised document. Measuring and placing text read the font and change
 * nothing in it.
 */
module Fonts {
  import opened Wrappers
  import opened Js
  import opened ParseTree
  import opened Labels
  import opened Properties
  import opened Schema
  import opened Glyphs
  import opened Resolver
  import opened Layout

  /** The label list of every glyph, in glyph order. */
  function LabelLists(glyphs: seq<Glyph>): (r: seq<seq<Label>>)
    ensures |r| == |glyphs|
  {
    seq(|glyphs|, i requires 0 <= i < |glyphs| => glyphs[i].labels)
  }

  class Font {
    var properties: FontProperties
    /** The normalised glyphs the font was built from. */
    var sources: seq<GlyphSource>
    var glyphs: seq<Glyph>
    var codePointMap: map<Number, nat>
    var unicodeMap: map<Number, nat>
    var characterMap: map<Unit, nat>
    var tagMap: map<JsString, nat>
    var defaultGlyph: Option<nat>

    /** The four maps and the default, as one value. */
    function Index(): Index
      reads this
    {
      Resolver.Index(codePointMap, unicodeMap, characterMap, tagMap, defaultGlyph)
    }

    /** Every map entry and the default name a compiled glyph, and every glyph keeps its metric invariant. */
    ghost predicate Valid()
      reads this
    {
      InRange(Index(), |glyphs|) && forall i :: 0 <= i < |glyphs| ==> WellFormed(glyphs[i])
    }

    /** The private constructor, given the normalised document: no glyphs compiled yet, empty maps. */
    constructor(doc: Document)
      ensures properties == doc.properties && sources == doc.glyphs
      ensures glyphs == [] && Index() == EmptyIndex()
    {
      properties := doc.properties;
      sources := doc.glyphs;
      glyphs := [];
      codePointMap := map[];
      unicodeMap := map[];
      characterMap := map[];
      tagMap := map[];
      defaultGlyph := None;
    }

    /** Every source glyph compiled, in order, with the font's shift as the fallback shift. */
    method CompileGlyphs()
      requires forall i :: 0 <= i < |sources| ==> Accepted(sources[i])
      modifies this
      ensures properties == old(properties) && sources == old(sources) && Index() == old(Index())
      ensures |glyphs| == |sources|
      ensures forall i :: 0 <= i < |sources| ==> Accepted(sources[i]) && glyphs[i] == Compile(sources[i], GlobalShiftUp(properties))
      ensures forall i :: 0 <= i < |glyphs| ==> WellFormed(glyphs[i])
    {
      var globalShiftUp := GlobalShiftUp(properties);
      var compiled: seq<Glyph> := [];
      var i := 0;
      while i < |sources|
        invariant 0 <= i <= |sources|
        invariant |compiled| == i
        invariant forall j :: 0 <= j < i ==> compiled[j] == Compile(sources[j], globalShiftUp)
      {
        compiled := compiled + [Compile(sources[i], globalShiftUp)];
        i := i + 1;
      }
      glyphs := compiled;
    }

    /** One label of glyph g entered: its slots now name g. */
    method Enter(l: Label, g: nat)
      modifies this
      ensures Index() == AddLabel(old(Index()), l, g)
      ensures properties == old(properties) && sources == old(sources) && glyphs == old(glyphs)
    {
      match l {
        case Default =>
          defaultGlyph := Some(g);
        case Unicode(hex) =>
          unicodeMap := unicodeMap[ParseInt(hex, 16) := g];
        case Character(c) =>
          characterMap := characterMap[c := g];
        case CodePoint(first, _) =>
          codePointMap := codePointMap[first := g];
        case Tag(name) =>
          if IsTagEscape(name) {
            unicodeMap := unicodeMap[ParseInt(name[2..], 16) := g];
          }
          tagMap := tagMap[name := g];
      }
    }

    /** The nested label loop of `Font.load`: every label of every glyph, in document order. */
    method AssembleMaps()
      requires Index() == EmptyIndex()
      modifies this
      ensures Index() == Assembled(LabelLists(glyphs))
      ensures InRange(Index(), |glyphs|)
      ensures properties == old(properties) && sources == old(sources) && glyphs == old(glyphs)
    {
      var lists := LabelLists(glyphs);
      var i := 0;
      while i < |glyphs|
        invariant 0 <= i <= |glyphs|
        invariant glyphs == old(glyphs) && properties == old(properties) && sources == old(sources)
        invariant Index() == Assembled(lists[..i])
      {
        var labels := glyphs[i].labels;
        var j := 0;
        while j < |labels|
          invariant 0 <= j <= |labels|
          invariant glyphs == old(glyphs) && properties == old(properties) && sources == old(sources)
          invariant Index() == AddLabels(Assembled(lists[..i]), labels[..j], i)
        {
          assert labels[..j + 1][..j] == labels[..j];
          Enter(labels[j], i);
          j := j + 1;
        }
        assert labels[..j] == labels == lists[i];
        assert lists[..i + 1][..i] == lists[..i];
        i := i + 1;
      }
      assert lists[..i] == lists;
      AssembledInRange(lists);
    }

    /** The `defaultChar` block of `Font.load`: only the default can change. */
    method ApplyDefaultChar()
      modifies this
      ensures Index() == old(Index()).(default := ResolveDefault(old(Index()), properties.defaultChar))
      ensures properties == old(properties) && sources == old(sources) && glyphs == old(glyphs)
    {
      match properties.defaultChar {
        case Some(MissingKeyword) =>
          if Lit("missing") in tagMap {
            defaultGlyph := Some(tagMap[Lit("missing")]);
          }
        case Some(CharCode(code)) =>
          var found := LookupCharacter(Index(), [ToUint16(code)]);
          if found.Some? {
            defaultGlyph := found;
          }
        case _ =>
      }
    }

    /** The glyphs a run of elements resolves to, in order. */
    function RunOf(items: seq<Item>): (r: seq<Glyph>)
      requires Valid()
      reads this
      ensures |r| == |ResolvedIndices(Index(), items)|
    {
      ResolvedIndicesInRange(Index(), items, |glyphs|);
      Run(glyphs, ResolvedIndices(Index(), items))
    }

    /**
     * `reduceString`: one pass over the elements, skipping those without a
     * glyph, summing widths and keeping the largest height and lift.
     */
    method ReduceString(items: seq<Item>) returns (bb: Bounds)
      requires Valid()
      ensures bb == Measure(RunOf(items))
    {
      bb := Reduce(glyphs, Index(), items);
    }

    /** `boundingBoxForString`: the string split into code units. */
    method BoundingBoxForString(s: JsString) returns (bb: Bounds)
      requires Valid()
      ensures bb == Measure(RunOf(Items(StringText(s))))
    {
      bb := ReduceString(Items(StringText(s)));
    }

    /** `boundingBoxForCharCodeArray`: the codes as they are. */
    method BoundingBoxForCharCodeArray(codes: seq<Number>) returns (bb: Bounds)
      requires Valid()
      ensures bb == Measure(RunOf(Items(CodesText(codes))))
    {
      bb := ReduceString(Items(CodesText(codes)));
    }

    /**
     * The placement loop of `fillText`: the canvas takes the measured size, and
     * each glyph is drawn with its left bearing after the pen, at the height
     * that puts its baseline `vertOffset` below the top; the pen then advances
     * by the glyph's bounding width.
     */
    method FillText(text: Text) returns (r: Rendering)
      requires Valid()
      ensures var gs := RunOf(Items(text));
        && r.width == TotalWidth(gs) && r.height == MaxHeight(gs) && r.verticalOffset == MaxLift(gs)
        && |r.draws| == |gs|
        && (forall k :: 0 <= k < |gs| ==>
              && r.draws[k].glyph == ResolvedIndices(Index(), Items(text))[k]
              && r.draws[k].x == TotalWidth(gs[..k]) + gs[k].leftBearing
              && r.draws[k].y == r.verticalOffset - gs[k].rasterHeight as real - gs[k].shiftUp
              && r.draws[k].y >= 0.0)
        && (|gs| > 0 ==> r.draws[|gs| - 1].x - gs[|gs| - 1].leftBearing + gs[|gs| - 1].boundingWidth == r.width)
    {
      var bb;
      match text {
        case StringText(s) => bb := BoundingBoxForString(s);
        case CodesText(codes) => bb := BoundingBoxForCharCodeArray(codes);
      }
      var draws := PlaceGlyphs(Items(text), bb.vertOffset);
      r := Rendering(bb.width, bb.height, bb.vertOffset, draws);
      RenderingOfRun(glyphs, ResolvedIndices(Index(), Items(text)), RunOf(Items(text)), r);
    }

    /** The pen loop of `fillText`: the draws for a run, given the line's vertical offset. */
    method PlaceGlyphs(items: seq<Item>, vertOffset: real) returns (draws: seq<Draw>)
      requires InRange(Index(), |glyphs|)
      ensures forall j :: 0 <= j < |ResolvedIndices(Index(), items)| ==> ResolvedIndices(Index(), items)[j] < |glyphs|
      ensures Placed(glyphs, ResolvedIndices(Index(), items), draws, vertOffset)
    {
      draws := Pen(glyphs, Index(), items, vertOffset);
    }
  }

  /** The loop of the pen over a glyph list and an index whose entries stay within it. */
  method Pen(gl: seq<Glyph>, ix: Index, items: seq<Item>, vertOffset: real) returns (draws: seq<Draw>)
    requires InRange(ix, |gl|)
    ensures forall j :: 0 <= j < |ResolvedIndices(ix, items)| ==> ResolvedIndices(ix, items)[j] < |gl|
    ensures Placed(gl, ResolvedIndices(ix, items), draws, vertOffset)
  {
    var x := 0.0;
    draws := [];
    ghost var indices: seq<nat> := [];
    var i := 0;
    assert items[..0] == [];
    while i < |items|
      invariant 0 <= i <= |items|
      invariant PenState(gl, ix, items[..i], indices, draws, x, vertOffset)
    {
      indices, draws, x := PenStep(gl, ix, items, i, indices, draws, x, vertOffset);
      i := i + 1;
    }
    assert items[..i] == items;
  }

  /** One turn of the pen loop: an element with a glyph is drawn at the pen, which then moves past it. */
  method PenStep(gl: seq<Glyph>, ix: Index, items: seq<Item>, i: nat, ghost indices: seq<nat>, draws: seq<Draw>, x: real, vertOffset: real)
    returns (ghost indices': seq<nat>, draws': seq<Draw>, x': real)
    requires InRange(ix, |gl|) && i < |items|
    requires PenState(gl, ix, items[..i], indices, draws, x, vertOffset)
    ensures PenState(gl, ix, items[..i + 1], indices', draws', x', vertOffset)
  {
    var found := Resolve(ix, items[i]);
    ResolveInRange(ix, items[i], |gl|);
    if found.Some? {
      var g := found.value;
      PenHit(gl, ix, items, i, indices, draws, x, vertOffset, g);
      draws' := draws + [PenDraw(gl, g, x, vertOffset)];
      x' := x + gl[g].boundingWidth;
      indices' := indices + [g];
    } else {
      PenMiss(gl, ix, items, i, indices, draws, x, vertOffset);
      indices', draws', x' := indices, draws, x;
    }
  }

  /**
   * The draw of glyph g with the pen at x: the image's left edge at the pen plus
   * the glyph's left bearing, its top `rasterHeight + shiftUp` above the line
   * `vertOffset` below the top.
   */
  function PenDraw(glyphs: seq<Glyph>, g: nat, x: real, vertOffset: real): Draw
    requires g < |glyphs|
  {
    Draw(g, x + glyphs[g].leftBearing, vertOffset - glyphs[g].rasterHeight as real - glyphs[g].shiftUp)
  }

  /** The pen after the glyphs at the given positions: the sum of their bounding widths. */
  function Advance(glyphs: seq<Glyph>, indices: seq<nat>): real
    requires forall j :: 0 <= j < |indices| ==> indices[j] < |glyphs|
  {
    if indices == [] then 0.0 else Advance(glyphs, indices[..|indices| - 1]) + glyphs[indices[|indices| - 1]].boundingWidth
  }

  /** The pen after some positions is the total width of their run. */
  lemma {:induction false} AdvanceIsWidth(glyphs: seq<Glyph>, indices: seq<nat>)
    requires forall j :: 0 <= j < |indices| ==> indices[j] < |glyphs|
    ensures Advance(glyphs, indices) == TotalWidth(Run(glyphs, indices))
  {
    if indices != [] {
      var n := |indices| - 1;
      AdvanceIsWidth(glyphs, indices[..n]);
      RunPrefix(glyphs, indices, n);
      assert Run(glyphs, indices)[..n] == Run(glyphs, indices[..n]);
    }
  }

  /** Each draw is its glyph's draw with the pen after the glyphs drawn before it. */
  ghost predicate Placed(glyphs: seq<Glyph>, indices: seq<nat>, draws: seq<Draw>, vertOffset: real)
    requires forall j :: 0 <= j < |indices| ==> indices[j] < |glyphs|
    decreases |indices|
  {
    && |draws| == |indices|
    && (indices != [] ==>
          var n := |indices| - 1;
          && Placed(glyphs, indices[..n], draws[..n], vertOffset)
          && draws[n] == PenDraw(glyphs, indices[n], Advance(glyphs, indices[..n]), vertOffset))
  }

  /** The loop of `reduceString` over a glyph list and an index whose entries stay within it. */
  method Reduce(gl: seq<Glyph>, ix: Index, items: seq<Item>) returns (bb: Bounds)
    requires InRange(ix, |gl|)
    ensures forall j :: 0 <= j < |ResolvedIndices(ix, items)| ==> ResolvedIndices(ix, items)[j] < |gl|
    ensures bb == Measure(Run(gl, ResolvedIndices(ix, items)))
  {
    var width, height, vertOffset := 0.0, 0.0, 0.0;
    ghost var indices: seq<nat> := [];
    var i := 0;
    assert items[..0] == [];
    while i < |items|
      invariant 0 <= i <= |items|
      invariant MeasureState(gl, ix, items[..i], indices, Bounds(width, height, vertOffset))
    {
      var found := Resolve(ix, items[i]);
      ResolveInRange(ix, items[i], |gl|);
      if found.Some? {
        var g := found.value;
        MeasureHit(gl, ix, items, i, indices, Bounds(width, height, vertOffset), g);
        vertOffset := Max(vertOffset, gl[g].rasterHeight as real + gl[g].shiftUp);
        width := width + gl[g].boundingWidth;
        height := Max(height, gl[g].boundingHeight);
        indices := indices + [g];
      } else {
        MeasureMiss(gl, ix, items, i, indices, Bounds(width, height, vertOffset));
      }
      i := i + 1;
    }
    assert items[..i] == items;
    bb := Bounds(width, height, vertOffset);
  }

  /** The state of the `reduceString` loop after a prefix of the elements: the glyphs found so far and their measure. */
  ghost predicate MeasureState(gl: seq<Glyph>, ix: Index, done: seq<Item>, indices: seq<nat>, bb: Bounds) {
    && indices == ResolvedIndices(ix, done)
    && (forall j :: 0 <= j < |indices| ==> indices[j] < |gl|)
    && bb == Measure(Run(gl, indices))
  }

  /** A turn of the `reduceString` loop on an element without a glyph changes nothing. */
  lemma MeasureMiss(gl: seq<Glyph>, ix: Index, items: seq<Item>, i: nat, indices: seq<nat>, bb: Bounds)
    requires i < |items| && Resolve(ix, items[i]).None?
    requires MeasureState(gl, ix, items[..i], indices, bb)
    ensures MeasureState(gl, ix, items[..i + 1], indices, bb)
  {
    ResolvedIndicesStep(ix, items, i);
  }

  /** A turn of the `reduceString` loop on an element with glyph g adds its width and raises height and lift to its own. */
  lemma MeasureHit(gl: seq<Glyph>, ix: Index, items: seq<Item>, i: nat, indices: seq<nat>, bb: Bounds, g: nat)
    requires i < |items| && Resolve(ix, items[i]) == Some(g) && g < |gl|
    requires MeasureState(gl, ix, items[..i], indices, bb)
    ensures MeasureState(gl, ix, items[..i + 1], indices + [g],
                         Bounds(bb.width + gl[g].boundingWidth, Max(bb.height, gl[g].boundingHeight),
                                Max(bb.vertOffset, gl[g].rasterHeight as real + gl[g].shiftUp)))
  {
    ResolvedIndicesStep(ix, items, i);
    BelowAppend(indices, g, |gl|);
    RunAppend(gl, indices, g);
    MeasureAppend(Run(gl, indices), gl[g]);
  }

  /**
   * The state of the pen loop after a prefix of the elements: the glyphs found
   * so far, their draws, and the pen at the sum of their widths.
   */
  ghost predicate PenState(gl: seq<Glyph>, ix: Index, done: seq<Item>, indices: seq<nat>, draws: seq<Draw>, x: real, vertOffset: real) {
    && indices == ResolvedIndices(ix, done)
    && (forall j :: 0 <= j < |indices| ==> indices[j] < |gl|)
    && x == Advance(gl, indices)
    && Placed(gl, indices, draws, vertOffset)
  }

  /** A turn of the pen loop on an element without a glyph changes nothing. */
  lemma PenMiss(gl: seq<Glyph>, ix: Index, items: seq<Item>, i: nat, indices: seq<nat>, draws: seq<Draw>, x: real, vertOffset: real)
    requires i < |items| && Resolve(ix, items[i]).None?
    requires PenState(gl, ix, items[..i], indices, draws, x, vertOffset)
    ensures PenState(gl, ix, items[..i + 1], indices, draws, x, vertOffset)
  {
    ResolvedIndicesStep(ix, items, i);
  }

  /** A turn of the pen loop on an element with glyph g draws g at the pen and moves the pen past it. */
  lemma PenHit(gl: seq<Glyph>, ix: Index, items: seq<Item>, i: nat, indices: seq<nat>, draws: seq<Draw>, x: real, vertOffset: real, g: nat)
    requires i < |items| && Resolve(ix, items[i]) == Some(g) && g < |gl|
    requires PenState(gl, ix, items[..i], indices, draws, x, vertOffset)
    ensures PenState(gl, ix, items[..i + 1], indices + [g], draws + [PenDraw(gl, g, x, vertOffset)],
                     x + gl[g].boundingWidth, vertOffset)
  {
    ResolvedIndicesStep(ix, items, i);
    BelowAppend(indices, g, |gl|);
    PlacedAppend(gl, indices, draws, vertOffset, g, x);
  }

  /** Appending a position below n to positions below n keeps them all below n. */
  lemma BelowAppend(indices: seq<nat>, g: nat, n: nat)
    requires forall j :: 0 <= j < |indices| ==> indices[j] < n
    requires g < n
    ensures forall j :: 0 <= j < |indices + [g]| ==> (indices + [g])[j] < n
  {
  }

  /** Drawing the next glyph at the pen keeps every earlier draw where it was. */
  lemma PlacedAppend(glyphs: seq<Glyph>, indices: seq<nat>, draws: seq<Draw>, vertOffset: real, g: nat, x: real)
    requires forall j :: 0 <= j < |indices| ==> indices[j] < |glyphs|
    requires g < |glyphs|
    requires Placed(glyphs, indices, draws, vertOffset)
    requires x == Advance(glyphs, indices)
    ensures Advance(glyphs, indices + [g]) == x + glyphs[g].boundingWidth
    ensures Placed(glyphs, indices + [g], draws + [PenDraw(glyphs, g, x, vertOffset)], vertOffset)
  {
    var d := PenDraw(glyphs, g, x, vertOffset);
    assert (indices + [g])[..|indices|] == indices;
    assert (draws + [d])[..|indices|] == draws;
  }

  /** Draw k of a placed run sits at the pen after the first k glyphs. */
  lemma {:induction false} PlacedAt(glyphs: seq<Glyph>, indices: seq<nat>, draws: seq<Draw>, vertOffset: real, k: nat)
    requires forall j :: 0 <= j < |indices| ==> indices[j] < |glyphs|
    requires Placed(glyphs, indices, draws, vertOffset)
    requires k < |indices|
    ensures |draws| == |indices|
    ensures draws[k] == PenDraw(glyphs, indices[k], Advance(glyphs, indices[..k]), vertOffset)
  {
    var n := |indices| - 1;
    if k < n {
      PlacedAt(glyphs, indices[..n], draws[..n], vertOffset, k);
      assert indices[..n][..k] == indices[..k];
    }
  }

  /** The k-th draw of a placed run: its glyph, its pen position and its top, never above the line's top. */
  lemma DrawAt(glyphs: seq<Glyph>, indices: seq<nat>, gs: seq<Glyph>, r: Rendering, k: nat)
    requires forall j :: 0 <= j < |indices| ==> indices[j] < |glyphs|
    requires gs == Run(glyphs, indices)
    requires r.verticalOffset == MaxLift(gs)
    requires Placed(glyphs, indices, r.draws, r.verticalOffset)
    requires k < |gs|
    ensures && r.draws[k].glyph == indices[k]
            && r.draws[k].x == TotalWidth(gs[..k]) + gs[k].leftBearing
            && r.draws[k].y == r.verticalOffset - gs[k].rasterHeight as real - gs[k].shiftUp
            && r.draws[k].y >= 0.0
  {
    PlacedAt(glyphs, indices, r.draws, r.verticalOffset, k);
    AdvanceIsWidth(glyphs, indices[..k]);
    RunPrefix(glyphs, indices, k);
    PlacedWithinLine(gs, k);
  }

  /**
   * A rendering built from the measured run and its placed draws: the canvas is
   * the run's size, draw k sits after the first k glyphs at the height that
   * puts every glyph's top at or below the canvas top, and the pen ends at the
   * canvas width.
   */
  lemma RenderingOfRun(glyphs: seq<Glyph>, indices: seq<nat>, gs: seq<Glyph>, r: Rendering)
    requires forall j :: 0 <= j < |indices| ==> indices[j] < |glyphs|
    requires gs == Run(glyphs, indices)
    requires Bounds(r.width, r.height, r.verticalOffset) == Measure(gs)
    requires Placed(glyphs, indices, r.draws, r.verticalOffset)
    ensures && r.width == TotalWidth(gs) && r.height == MaxHeight(gs) && r.verticalOffset == MaxLift(gs)
            && |r.draws| == |gs|
            && (forall k :: 0 <= k < |gs| ==>
                  && r.draws[k].glyph == indices[k]
                  && r.draws[k].x == TotalWidth(gs[..k]) + gs[k].leftBearing
                  && r.draws[k].y == r.verticalOffset - gs[k].rasterHeight as real - gs[k].shiftUp
                  && r.draws[k].y >= 0.0)
            && (|gs| > 0 ==> r.draws[|gs| - 1].x - gs[|gs| - 1].leftBearing + gs[|gs| - 1].boundingWidth == r.width)
  {
    forall k | 0 <= k < |gs|
      ensures && r.draws[k].glyph == indices[k]
              && r.draws[k].x == TotalWidth(gs[..k]) + gs[k].leftBearing
              && r.draws[k].y == r.verticalOffset - gs[k].rasterHeight as real - gs[k].shiftUp
              && r.draws[k].y >= 0.0
    {
      DrawAt(glyphs, indices, gs, r, k);
    }
    if |gs| > 0 {
      var n := |gs| - 1;
      PlacedAt(glyphs, indices, r.draws, r.verticalOffset, n);
      AdvanceIsWidth(glyphs, indices[..n]);
      RunPrefix(glyphs, indices, n);
    }
  }

  /** The font after `Font.load` from a normalised document. */
  ghost predicate LoadedFrom(f: Font, doc: Document)
    reads f
  {
    && f.properties == doc.properties
    && |f.glyphs| == |doc.glyphs|
    && (forall i :: 0 <= i < |doc.glyphs| ==> Accepted(doc.glyphs[i]) && f.glyphs[i] == Compile(doc.glyphs[i], GlobalShiftUp(doc.properties)))
    && f.Index() == Assembled(LabelLists(f.glyphs)).(default := ResolveDefault(Assembled(LabelLists(f.glyphs)), doc.properties.defaultChar))
  }

  /**
   * `Font.load` after parsing: the load fails exactly when normalisation does,
   * with the same refused keys; otherwise the font holds the compiled glyphs,
   * the assembled maps and the resolved default.
   */
  method Load(entries: seq<RawEntry>) returns (r: Result<Font, seq<JsString>>)
    ensures r.Failure? <==> Normalize(entries).Failure?
    ensures r.Failure? ==> r.error == Normalize(entries).error
    ensures r.Success? ==> fresh(r.value) && r.value.Valid() && LoadedFrom(r.value, Normalize(entries).value)
  {
    match Normalize(entries) {
      case Failure(refused) =>
        r := Failure(refused);
      case Success(doc) =>
        NormalizedGlyphsAccepted(entries);
        var f := new Font(doc);
        f.CompileGlyphs();
        f.AssembleMaps();
        ghost var assembled := f.Index();
        f.ApplyDefaultChar();
        ResolveDefaultInRange(assembled, f.properties.defaultChar, |f.glyphs|);
        r := Success(f);
    }
  }
}
