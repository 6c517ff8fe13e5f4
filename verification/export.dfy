/** The per-page decisions of "Generate and download" (`handleGenerateAndDownload`,
    App.tsx:339-458 and index.js:416-467), as a plan: one step per logical page.

    Pixels are not modelled. An image is a list of painted layers (a background
    fill, a whole source page image, or a source page image drawn into a box); each
    layer records whether its colours are inverted. A `difference` blend with white
    over the whole canvas flips that flag on every layer; `ctx.filter = 'invert(1)'`
    sets it on the layers drawn while it is active. Page sizes from the PDF library
    are the `Paper` parameter; the size of each source page is given in `sources`. */
module Export {
  import opened Prelude
  import opened Pages
  import opened Layout

  datatype Layer =
    | Fill(color: Background)
    | Whole(source: nat)
    | Placed(source: nat, box: Rect)

  datatype Painted = Painted(layer: Layer, inverted: bool)

  type Image = seq<Painted>

  /** A vector drawing of a source page into a box (`drawPage`). */
  datatype Placement = Placement(source: nat, box: Rect)

  datatype Step =
    | CopyVector(source: nat)
      // `copyPages` of the source page
    | InvertedOriginal(source: nat, image: Image)
      // a page of the source page's size covered by an inverted raster
    | MergedVector(size: Size, background: Background, draws: seq<Placement>)
      // background rectangle, then each source page drawn as vectors
    | MergedRaster(size: Size, background: Background, image: Image)
      // background rectangle, then a raster covering the whole page

  /** Canvases are 1.5 times the page size (App.tsx:238, App.tsx:394, index.js:388). */
  const CanvasScale: real := 1.5

  /** A `difference` blend with white over the whole canvas: every layer's colours flip. */
  function Invert(img: Image): (r: Image)
    ensures |r| == |img|
    ensures forall i | 0 <= i < |img| :: r[i].layer == img[i].layer && r[i].inverted == !img[i].inverted
  {
    seq(|img|, i requires 0 <= i < |img| => Painted(img[i].layer, !img[i].inverted))
  }

  lemma InvertTwice(img: Image)
    ensures Invert(Invert(img)) == img
  {
  }

  /** The raster of one source page, as rendered at load time (`originalPageImages[i]`). */
  function SourceImage(i: nat): Image {
    [Painted(Whole(i), false)]
  }

  predicate IsSource(p: Painted) {
    p.layer.Whole? || p.layer.Placed?
  }

  /** The image shows at least one source page, and every source page in it has the
      inversion `inverted`. */
  predicate SourcesInverted(img: Image, inverted: bool) {
    && (exists p | p in img :: IsSource(p))
    && forall p | p in img && IsSource(p) :: p.inverted == inverted
  }

  /** What a step shows of the source pages: vector steps draw them as they are;
      raster steps show them with their layers' inversion. */
  predicate ShowsInverted(step: Step, inverted: bool) {
    match step
    case CopyVector(_) => !inverted
    case MergedVector(_, _, draws) => |draws| > 0 && !inverted
    case InvertedOriginal(_, img) => SourcesInverted(img, inverted)
    case MergedRaster(_, _, img) => SourcesInverted(img, inverted)
  }

  /** A step shows its source pages with one inversion or the other, never both. */
  lemma ShowsInvertedUnique(step: Step, a: bool, b: bool)
    requires ShowsInverted(step, a) && ShowsInverted(step, b)
    ensures a == b
  {
    if step.InvertedOriginal? || step.MergedRaster? {
      var img := step.image;
      var p :| p in img && IsSource(p);
    }
  }

  /** Every source page has a positive size. */
  predicate SizesOk(sources: seq<Size>) {
    forall i | 0 <= i < |sources| :: sources[i].width > 0.0 && sources[i].height > 0.0
  }

  /** A Merged page the planners can draw: 2 to 4 source pages, each one known. */
  predicate MergedOk(page: LogicalPage, sources: seq<Size>) {
    && page.Merged?
    && 2 <= |page.sourceIndices| <= 4
    && (forall j | 0 <= j < |page.sourceIndices| :: page.sourceIndices[j] < |sources|)
    && SizesOk(sources)
  }

  /** What the planners need of a document: every source index names a known source
      page, and every Merged page combines 2 to 4 of them. */
  predicate Exportable(doc: Document, sources: seq<Size>) {
    && SizesOk(sources)
    && forall k | 0 <= k < |doc| ::
         && (doc[k].Original? ==> doc[k].sourceIndex < |sources|)
         && (doc[k].Merged? ==> MergedOk(doc[k], sources))
  }

  /** Every document the editor keeps is exportable. */
  lemma ValidExportable(doc: Document, sources: seq<Size>)
    requires Valid(doc, |sources|) && SizesOk(sources)
    ensures Exportable(doc, sources)
  {
    forall k | 0 <= k < |doc|
      ensures doc[k].Original? ==> doc[k].sourceIndex < |sources|
      ensures doc[k].Merged? ==> MergedOk(doc[k], sources)
    {
      ValidPageExportable(doc, sources, k);
    }
  }

  lemma ValidPageExportable(doc: Document, sources: seq<Size>, k: int)
    requires Valid(doc, |sources|) && SizesOk(sources)
    requires 0 <= k < |doc|
    ensures doc[k].Original? ==> doc[k].sourceIndex < |sources|
    ensures doc[k].Merged? ==> MergedOk(doc[k], sources)
  {
    var p := doc[k];
    FlatContains(doc, k);
    assert p in doc;
    if p.Original? {
      assert p.Indices()[0] in p.Indices();
    } else {
      forall j | 0 <= j < |p.sourceIndices|
        ensures p.sourceIndices[j] < |sources|
      {
        assert p.Indices()[j] in p.Indices();
      }
    }
  }

  /** The source pages of a Merged page drawn into their layout cells on a canvas of
      size `canvas`, each fitted by the ratio form and carrying inversion `inverted`. */
  function PlaceSources(page: LogicalPage, canvas: Size, sources: seq<Size>, inverted: bool): (img: Image)
    requires MergedOk(page, sources)
    requires canvas.width > 40.0 && canvas.height > 50.0
    ensures |img| == |page.sourceIndices|
    ensures forall j | 0 <= j < |img| :: img[j].layer.Placed? && img[j].layer.source == page.sourceIndices[j]
                                         && img[j].inverted == inverted
  {
    var indices := page.sourceIndices;
    var cells := CalculateLayout(|indices|, canvas.width, canvas.height);
    LayoutInside(|indices|, canvas.width, canvas.height);
    seq(|indices|, j requires 0 <= j < |indices| =>
      Painted(Placed(indices[j], AspectFit(cells[j], sources[indices[j]])), inverted))
  }

  /** Assigning a number to `canvas.width` or `canvas.height` stores an unsigned
      long: a non-negative value loses its fractional part. */
  function WholePixels(x: real): (n: real)
    requires x >= 0.0
    ensures n == n.Floor as real
    ensures n <= x < n + 1.0
  {
    x.Floor as real
  }

  /** The canvas of the merge preview and of the App's inverted raster
      (App.tsx:236-237, App.tsx:397-398, index.js:389-390): the paper size scaled
      by 1.5 and truncated to whole pixels, which is what the layout then reads back. */
  function CanvasSize(paper: Paper, size: PageSize): (c: Size)
    requires PaperOk(paper)
    ensures c.width > 40.0 && c.height > 50.0
    ensures var d := PageDimensions(paper, size);
            && c.width <= d.width * CanvasScale < c.width + 1.0
            && c.height <= d.height * CanvasScale < c.height + 1.0
            && c.width == c.width.Floor as real && c.height == c.height.Floor as real
  {
    var d := PageDimensions(paper, size);
    PageDimensionsSwap(paper);
    Size(WholePixels(d.width * CanvasScale), WholePixels(d.height * CanvasScale))
  }

  /** With the library's A4 size of 595.28 by 841.89 points, the portrait canvas is
      892 by 1262 pixels rather than 892.92 by 1262.835. */
  lemma A4CanvasTruncated(paper: Paper)
    requires PaperOk(paper) && paper.a4Width == 595.28 && paper.a4Height == 841.89
    ensures CanvasSize(paper, A4Portrait) == Size(892.0, 1262.0)
  {
    assert PageDimensions(paper, A4Portrait).width * CanvasScale == 892.92;
    assert PageDimensions(paper, A4Portrait).height * CanvasScale == 1262.835;
  }

  /** The cached image of a Merged page (`generateMergePreview`, App.tsx:231-280 and
      index.js:384-414): the background fill, then the source pages, inverted when
      the page asks for it. The inversion filter is set after the fill, so the
      background itself is never inverted. */
  function Preview(page: LogicalPage, paper: Paper, sources: seq<Size>): (img: Image)
    requires MergedOk(page, sources) && PaperOk(paper)
    ensures |img| == 1 + |page.sourceIndices|
    ensures img[0] == Painted(Fill(page.background), false)
  {
    [Painted(Fill(page.background), false)]
      + PlaceSources(page, CanvasSize(paper, page.pageSize), sources, page.invertColors)
  }

  /** An Original page, in both front ends (App.tsx:352-381, index.js:430-447): the
      source page copied as vectors, or under the global inversion an inverted raster
      of its rendered image on a page of the source page's size. */
  function OriginalStep(i: nat, globalInvert: bool): Step {
    if globalInvert then InvertedOriginal(i, Invert(SourceImage(i))) else CopyVector(i)
  }

  /** The vector placements of App.tsx:436-455 as written: each source page fitted
      into its cell with the `Math.min` form, and the canvas-style (y-down)
      coordinates handed to `drawPage`, which reads them as PDF coordinates (y up). */
  function VectorDraws(page: LogicalPage, pageSize: Size, sources: seq<Size>): (draws: seq<Placement>)
    requires MergedOk(page, sources)
    ensures |draws| == |page.sourceIndices|
  {
    var indices := page.sourceIndices;
    var cells := CalculateLayout(|indices|, pageSize.width, pageSize.height);
    seq(|indices|, j requires 0 <= j < |indices| =>
      Placement(indices[j], MinScaleFit(cells[j], sources[indices[j]])))
  }

  /** A Merged page in App.tsx:382-456: when the page's own inversion and the global
      one differ, a raster rebuilt from the source page images on a canvas that is
      never filled with the background, then inverted; otherwise vector drawings. */
  function AppMergedStep(page: LogicalPage, globalInvert: bool, paper: Paper, sources: seq<Size>): (step: Step)
    requires MergedOk(page, sources) && PaperOk(paper)
  {
    var size := PageDimensions(paper, page.pageSize);
    if page.invertColors != globalInvert then
      MergedRaster(size, page.background, Invert(PlaceSources(page, CanvasSize(paper, page.pageSize), sources, false)))
    else
      MergedVector(size, page.background, VectorDraws(page, size, sources))
  }

  /** A Merged page in index.js:448-467 as written: the cached preview, inverted once
      more when the page's own inversion and the global one differ. */
  function JsMergedStep(page: LogicalPage, globalInvert: bool, paper: Paper, sources: seq<Size>): (step: Step)
    requires MergedOk(page, sources) && PaperOk(paper)
  {
    var size := PageDimensions(paper, page.pageSize);
    var preview := Preview(page, paper, sources);
    MergedRaster(size, page.background, if page.invertColors != globalInvert then Invert(preview) else preview)
  }

  function AppStep(page: LogicalPage, globalInvert: bool, paper: Paper, sources: seq<Size>): Step
    requires page.Merged? ==> MergedOk(page, sources)
    requires PaperOk(paper)
  {
    match page
    case Original(i) => OriginalStep(i, globalInvert)
    case Merged(_, _, _, _, _) => AppMergedStep(page, globalInvert, paper, sources)
  }

  function JsStep(page: LogicalPage, globalInvert: bool, paper: Paper, sources: seq<Size>): Step
    requires page.Merged? ==> MergedOk(page, sources)
    requires PaperOk(paper)
  {
    match page
    case Original(i) => OriginalStep(i, globalInvert)
    case Merged(_, _, _, _, _) => JsMergedStep(page, globalInvert, paper, sources)
  }

  /** The App planner: nothing for an empty document (App.tsx:340), otherwise one step
      per logical page, in order. */
  function AppPlan(doc: Document, globalInvert: bool, paper: Paper, sources: seq<Size>): (plan: Option<seq<Step>>)
    requires Exportable(doc, sources) && PaperOk(paper)
    ensures plan.None? <==> |doc| == 0
    ensures plan.Some? ==> |plan.value| == |doc|
  {
    if |doc| == 0 then None
    else Some(seq(|doc|, k requires 0 <= k < |doc| =>
      AppStep(doc[k], globalInvert, paper, sources)))
  }

  /** The index.js planner, with the same shape. */
  function JsPlan(doc: Document, globalInvert: bool, paper: Paper, sources: seq<Size>): (plan: Option<seq<Step>>)
    requires Exportable(doc, sources) && PaperOk(paper)
    ensures plan.None? <==> |doc| == 0
    ensures plan.Some? ==> |plan.value| == |doc|
  {
    if |doc| == 0 then None
    else Some(seq(|doc|, k requires 0 <= k < |doc| =>
      JsStep(doc[k], globalInvert, paper, sources)))
  }

  /** Step `k` of the App plan is about page `k`: an Original page is copied as
      vectors exactly when the global inversion is off; a Merged page is rasterised
      exactly when its own inversion and the global one differ, on a page of its
      chosen size and background. */
  lemma AppPlanSteps(doc: Document, globalInvert: bool, paper: Paper, sources: seq<Size>, k: int)
    requires Exportable(doc, sources) && PaperOk(paper)
    requires 0 <= k < |doc|
    ensures var step := AppPlan(doc, globalInvert, paper, sources).value[k];
      && (doc[k].Original? ==>
            (step.CopyVector? <==> !globalInvert) && step.source == doc[k].sourceIndex
            && (step.InvertedOriginal? <==> globalInvert))
      && (doc[k].Merged? ==>
            (step.MergedRaster? <==> doc[k].invertColors != globalInvert)
            && (step.MergedVector? <==> doc[k].invertColors == globalInvert)
            && step.size == PageDimensions(paper, doc[k].pageSize)
            && step.background == doc[k].background)
  {
  }

  /** Step `k` of the index.js plan is about page `k`: Original pages as in the App;
      every Merged page becomes a raster of its chosen size and background. */
  lemma JsPlanSteps(doc: Document, globalInvert: bool, paper: Paper, sources: seq<Size>, k: int)
    requires Exportable(doc, sources) && PaperOk(paper)
    requires 0 <= k < |doc|
    ensures var step := JsPlan(doc, globalInvert, paper, sources).value[k];
      && (doc[k].Original? ==> step == AppPlan(doc, globalInvert, paper, sources).value[k])
      && (doc[k].Merged? ==>
            && step.MergedRaster?
            && step.size == PageDimensions(paper, doc[k].pageSize)
            && step.background == doc[k].background)
  {
  }

  /** The inversion each page is meant to show: the global one for an Original page,
      and the page's own XOR the global one for a Merged page. */
  function IntendedInversion(page: LogicalPage, globalInvert: bool): bool {
    if page.Original? then globalInvert else page.invertColors != globalInvert
  }

  /** Every step of the App plan shows its page with the intended inversion. */
  lemma AppPlanInversion(doc: Document, globalInvert: bool, paper: Paper, sources: seq<Size>, k: int)
    requires Exportable(doc, sources) && PaperOk(paper)
    requires 0 <= k < |doc|
    ensures ShowsInverted(AppPlan(doc, globalInvert, paper, sources).value[k], IntendedInversion(doc[k], globalInvert))
  {
    AppNetInversion(doc[k], globalInvert, paper, sources);
  }

  /** As written, every step of the index.js plan shows its page with the global
      inversion, whatever the page's own setting. */
  lemma JsPlanInversion(doc: Document, globalInvert: bool, paper: Paper, sources: seq<Size>, k: int)
    requires Exportable(doc, sources) && PaperOk(paper)
    requires 0 <= k < |doc|
    ensures ShowsInverted(JsPlan(doc, globalInvert, paper, sources).value[k], globalInvert)
  {
    AppNetInversion(doc[k], globalInvert, paper, sources);
    if doc[k].Merged? {
      JsNetInversion(doc[k], globalInvert, paper, sources);
    }
  }

  /** A `difference` blend flips the inversion every source page shows. */
  lemma InvertFlips(img: Image, b: bool)
    requires SourcesInverted(img, b)
    ensures SourcesInverted(Invert(img), !b)
  {
    var q :| q in img && IsSource(q);
    var i :| 0 <= i < |img| && img[i] == q;
    assert Invert(img)[i] in Invert(img);
    forall p | p in Invert(img) && IsSource(p)
      ensures p.inverted == !b
    {
      var j :| 0 <= j < |img| && Invert(img)[j] == p;
      assert img[j] in img;
    }
  }

  /** The source pages placed with inversion `b` show inversion `b`. */
  lemma PlacedInversion(page: LogicalPage, canvas: Size, sources: seq<Size>, b: bool)
    requires MergedOk(page, sources)
    requires canvas.width > 40.0 && canvas.height > 50.0
    ensures SourcesInverted(PlaceSources(page, canvas, sources, b), b)
  {
    var img := PlaceSources(page, canvas, sources, b);
    assert img[0] in img && IsSource(img[0]);
  }

  /** The preview shows the source pages with the page's own inversion. */
  lemma PreviewInversion(page: LogicalPage, paper: Paper, sources: seq<Size>)
    requires MergedOk(page, sources) && PaperOk(paper)
    ensures SourcesInverted(Preview(page, paper, sources), page.invertColors)
  {
    var canvas := CanvasSize(paper, page.pageSize);
    var placed := PlaceSources(page, canvas, sources, page.invertColors);
    PlacedInversion(page, canvas, sources, page.invertColors);
    var img := Preview(page, paper, sources);
    assert img == [Painted(Fill(page.background), false)] + placed;
    var q :| q in placed && IsSource(q);
    assert q in img;
    forall p | p in img && IsSource(p)
      ensures p.inverted == page.invertColors
    {
      assert p in placed;
    }
  }

  /** Net inversion in the App plan: an Original page shows the global inversion; a
      Merged page shows its own inversion XOR the global one. */
  lemma AppNetInversion(page: LogicalPage, globalInvert: bool, paper: Paper, sources: seq<Size>)
    requires page.Merged? ==> MergedOk(page, sources)
    requires PaperOk(paper)
    ensures page.Original? ==> ShowsInverted(AppStep(page, globalInvert, paper, sources), globalInvert)
    ensures page.Merged? ==>
      ShowsInverted(AppStep(page, globalInvert, paper, sources), page.invertColors != globalInvert)
  {
    if page.Original? {
      var img := SourceImage(page.sourceIndex);
      assert img[0] in img && IsSource(img[0]);
      InvertFlips(img, false);
    } else if page.invertColors != globalInvert {
      var canvas := CanvasSize(paper, page.pageSize);
      PlacedInversion(page, canvas, sources, false);
      InvertFlips(PlaceSources(page, canvas, sources, false), false);
    } else {
      assert |VectorDraws(page, PageDimensions(paper, page.pageSize), sources)| > 0;
    }
  }

  /** The App's inverted raster of a Merged page never shows the chosen background:
      only the source pages are painted, so a white and a black background give the
      same image. */
  lemma AppRasterIgnoresBackground(page: LogicalPage, globalInvert: bool, paper: Paper, sources: seq<Size>)
    requires MergedOk(page, sources) && PaperOk(paper)
    requires page.invertColors != globalInvert
    ensures var step := AppMergedStep(page, globalInvert, paper, sources);
            && step.MergedRaster?
            && (forall p | p in step.image :: !p.layer.Fill?)
            && step.image == AppMergedStep(page.(background := White), globalInvert, paper, sources).image
            && step.image == AppMergedStep(page.(background := Black), globalInvert, paper, sources).image
  {
    var step := AppMergedStep(page, globalInvert, paper, sources);
    forall p | p in step.image
      ensures !p.layer.Fill?
    {
      var j :| 0 <= j < |step.image| && step.image[j] == p;
    }
  }

  /** As written, index.js shows the source pages of a Merged page with the global
      inversion alone: the preview already carries the page's own inversion, and the
      second inversion undoes it whenever the two differ. */
  lemma JsNetInversion(page: LogicalPage, globalInvert: bool, paper: Paper, sources: seq<Size>)
    requires MergedOk(page, sources) && PaperOk(paper)
    ensures ShowsInverted(JsMergedStep(page, globalInvert, paper, sources), globalInvert)
  {
    PreviewInversion(page, paper, sources);
    if page.invertColors != globalInvert {
      InvertFlips(Preview(page, paper, sources), page.invertColors);
    }
  }

  /** The concrete case: a Merged page created with "invert colours" and exported
      without the global inversion comes out with its source pages not inverted,
      although its preview shows them inverted and the App plan inverts them. */
  lemma JsDropsPageInversion(page: LogicalPage, paper: Paper, sources: seq<Size>)
    requires MergedOk(page, sources) && PaperOk(paper)
    requires page.invertColors
    ensures SourcesInverted(Preview(page, paper, sources), true)
    ensures ShowsInverted(AppMergedStep(page, false, paper, sources), true)
    ensures !ShowsInverted(JsMergedStep(page, false, paper, sources), true)
  {
    PreviewInversion(page, paper, sources);
    AppNetInversion(page, false, paper, sources);
    JsNetInversion(page, false, paper, sources);
    var step := JsMergedStep(page, false, paper, sources);
    if ShowsInverted(step, true) {
      ShowsInvertedUnique(step, false, true);
    }
  }

  /** index.js with the evidently intended test: since the preview already carries
      the page's own inversion, invert it once more exactly when the global
      inversion is on. */
  function JsMergedStepCorrected(page: LogicalPage, globalInvert: bool, paper: Paper, sources: seq<Size>): (step: Step)
    requires MergedOk(page, sources) && PaperOk(paper)
  {
    var size := PageDimensions(paper, page.pageSize);
    var preview := Preview(page, paper, sources);
    MergedRaster(size, page.background, if globalInvert then Invert(preview) else preview)
  }

  /** The corrected step shows the same net inversion as the App plan, and its
      background is inverted exactly by the global inversion. */
  lemma JsCorrectedNetInversion(page: LogicalPage, globalInvert: bool, paper: Paper, sources: seq<Size>)
    requires MergedOk(page, sources) && PaperOk(paper)
    ensures var step := JsMergedStepCorrected(page, globalInvert, paper, sources);
            && ShowsInverted(step, page.invertColors != globalInvert)
            && ShowsInverted(AppMergedStep(page, globalInvert, paper, sources), page.invertColors != globalInvert)
            && step.image[0] == Painted(Fill(page.background), globalInvert)
  {
    PreviewInversion(page, paper, sources);
    if globalInvert {
      InvertFlips(Preview(page, paper, sources), page.invertColors);
    }
    AppNetInversion(page, globalInvert, paper, sources);
  }

  /** The index.js planner with the corrected test for Merged pages. */
  function JsPlanCorrected(doc: Document, globalInvert: bool, paper: Paper, sources: seq<Size>): (plan: Option<seq<Step>>)
    requires Exportable(doc, sources) && PaperOk(paper)
    ensures plan.None? <==> |doc| == 0
    ensures plan.Some? ==> |plan.value| == |doc|
  {
    if |doc| == 0 then None
    else Some(seq(|doc|, k requires 0 <= k < |doc| =>
      if doc[k].Original? then OriginalStep(doc[k].sourceIndex, globalInvert)
      else JsMergedStepCorrected(doc[k], globalInvert, paper, sources)))
  }

  /** With the correction, every step of the index.js plan shows its page with the
      intended inversion, as the App plan does. */
  lemma JsPlanCorrectedInversion(doc: Document, globalInvert: bool, paper: Paper, sources: seq<Size>, k: int)
    requires Exportable(doc, sources) && PaperOk(paper)
    requires 0 <= k < |doc|
    ensures ShowsInverted(JsPlanCorrected(doc, globalInvert, paper, sources).value[k], IntendedInversion(doc[k], globalInvert))
  {
    AppNetInversion(doc[k], globalInvert, paper, sources);
    if doc[k].Merged? {
      JsCorrectedNetInversion(doc[k], globalInvert, paper, sources);
    }
  }

  /** Where a vector drawing appears on the page, in canvas terms (y down): PDF user
      space has its origin at the lower left with y growing upwards (section 8.3.2.3
      of ISO 32000-1), so a box given in PDF coordinates appears mirrored. */
  function Visible(pageSize: Size, draw: Placement): Rect {
    Mirror(pageSize.height, draw.box)
  }

  predicate PageSizeOk(size: Size) {
    size.width > 40.0 && size.height > 50.0
  }

  /** As written, each vector drawing appears at the vertical mirror image of its
      intended place, the preview's fit into the same cell. */
  lemma VectorDrawsMirrored(page: LogicalPage, size: Size, sources: seq<Size>)
    requires MergedOk(page, sources) && PageSizeOk(size)
    ensures var draws := VectorDraws(page, size, sources);
            var cells := CalculateLayout(|page.sourceIndices|, size.width, size.height);
            forall j | 0 <= j < |draws| ::
              Visible(size, draws[j]) == Mirror(size.height, AspectFit(cells[j], sources[page.sourceIndices[j]]))
  {
    forall j | 0 <= j < |page.sourceIndices|
      ensures var cells := CalculateLayout(|page.sourceIndices|, size.width, size.height);
              Visible(size, VectorDraws(page, size, sources)[j])
                == Mirror(size.height, AspectFit(cells[j], sources[page.sourceIndices[j]]))
    {
      DrawMirrored(page, size, sources, j);
    }
  }

  lemma DrawMirrored(page: LogicalPage, size: Size, sources: seq<Size>, j: int)
    requires MergedOk(page, sources) && PageSizeOk(size)
    requires 0 <= j < |page.sourceIndices|
    ensures var cells := CalculateLayout(|page.sourceIndices|, size.width, size.height);
            Visible(size, VectorDraws(page, size, sources)[j])
              == Mirror(size.height, AspectFit(cells[j], sources[page.sourceIndices[j]]))
  {
    var cells := CalculateLayout(|page.sourceIndices|, size.width, size.height);
    LayoutInside(|page.sourceIndices|, size.width, size.height);
    FitFormsAgree(cells[j], sources[page.sourceIndices[j]]);
  }

  /** Of two merged source pages, the first belongs in the top half of the page (its
      layout cell ends above the middle), but as written it is drawn wholly in the
      bottom half. */
  lemma FirstOfTwoDrawnLow(page: LogicalPage, size: Size, sources: seq<Size>)
    requires MergedOk(page, sources) && PageSizeOk(size)
    requires |page.sourceIndices| == 2
    ensures var cells := CalculateLayout(2, size.width, size.height);
            && cells[0].y + cells[0].height < size.height / 2.0
            && Visible(size, VectorDraws(page, size, sources)[0]).y > size.height / 2.0
  {
    var cells := CalculateLayout(2, size.width, size.height);
    LayoutInside(2, size.width, size.height);
    var src := sources[page.sourceIndices[0]];
    AspectFitFits(cells[0], src);
    DrawMirrored(page, size, sources, 0);
  }

  /** The evidently intended vector placements: the same fit, converted from the
      layout's y-down coordinates to PDF's y-up ones before drawing. */
  function VectorDrawsCorrected(page: LogicalPage, pageSize: Size, sources: seq<Size>): (draws: seq<Placement>)
    requires MergedOk(page, sources)
    ensures |draws| == |page.sourceIndices|
  {
    var indices := page.sourceIndices;
    var cells := CalculateLayout(|indices|, pageSize.width, pageSize.height);
    seq(|indices|, j requires 0 <= j < |indices| =>
      Placement(indices[j], Mirror(pageSize.height, MinScaleFit(cells[j], sources[indices[j]]))))
  }

  /** With the conversion, every source page appears exactly where the layout puts it:
      fitted, centred and in proportion inside its own cell. */
  lemma VectorDrawsCorrectedPlaced(page: LogicalPage, size: Size, sources: seq<Size>)
    requires MergedOk(page, sources) && PageSizeOk(size)
    ensures var draws := VectorDrawsCorrected(page, size, sources);
            var cells := CalculateLayout(|page.sourceIndices|, size.width, size.height);
            forall j | 0 <= j < |draws| ::
              && draws[j].source == page.sourceIndices[j]
              && Fits(Visible(size, draws[j]), cells[j], sources[page.sourceIndices[j]])
  {
    forall j | 0 <= j < |page.sourceIndices|
      ensures var cells := CalculateLayout(|page.sourceIndices|, size.width, size.height);
              Fits(Visible(size, VectorDrawsCorrected(page, size, sources)[j]), cells[j], sources[page.sourceIndices[j]])
    {
      CorrectedDrawPlaced(page, size, sources, j);
    }
  }

  lemma CorrectedDrawPlaced(page: LogicalPage, size: Size, sources: seq<Size>, j: int)
    requires MergedOk(page, sources) && PageSizeOk(size)
    requires 0 <= j < |page.sourceIndices|
    ensures var cells := CalculateLayout(|page.sourceIndices|, size.width, size.height);
            Fits(Visible(size, VectorDrawsCorrected(page, size, sources)[j]), cells[j], sources[page.sourceIndices[j]])
  {
    var cells := CalculateLayout(|page.sourceIndices|, size.width, size.height);
    LayoutInside(|page.sourceIndices|, size.width, size.height);
    var src := sources[page.sourceIndices[j]];
    MirrorTwice(size.height, MinScaleFit(cells[j], src));
    FitFormsAgree(cells[j], src);
    AspectFitFits(cells[j], src);
  }

  /** The page sizes the planners use are large enough for the layout. */
  lemma PlannedSizeOk(paper: Paper, size: PageSize)
    requires PaperOk(paper)
    ensures PageSizeOk(PageDimensions(paper, size))
  {
    PageDimensionsSwap(paper);
  }
}
