# PDF page editor: page model, layout and export planner

This project models the core of a browser-based PDF page editor. The source exists in
two front ends: a React application (`App.tsx` with `components/PdfViewer.tsx`) and a
plain DOM application (`index.js`). The user loads a PDF and gets one thumbnail per
page. They can select pages, delete them, and merge 2 to 4 original pages into one
new page with a chosen paper size, background colour and colour inversion. They can
demerge such a page back into its originals. Finally they export the edited document
as a new PDF, optionally with every page's colours inverted.

The model has these parts:

- `Prelude`: an `Option` type and a multiset-based `Distinct` predicate.
- `Numerals`: page ids as strings. An original page's id is the decimal numeral of
  its source index; a merged page's id is fresh and never a numeral. It also covers
  the comma-joined lists used in thumbnail badges.
- `Pages`: logical pages (`Original` or `Merged`), documents, and the document
  invariant `Valid`. Every source index is in range and shown at most once; every
  merged page has 2 to 4 sources and a fresh id; merged ids are distinct.
- `PageOps`: the array idioms the handlers use (`filter` by selection, `findIndex`,
  set toggling, slicing, JavaScript `splice` with a negative start).
- `Viewer`: the button predicates and thumbnail labels the two front ends derive
  from the document and the selection.
- `Editing`: the handlers as transitions of a `Session` (document, selection, error
  banner, merge dialog). Both front ends' merge paths are modelled.
- `Invariants`: every handler preserves `Valid` and keeps the selection inside the
  document.
- `RoundTrip`: merge followed by demerge gives the document back exactly when the
  selected pages were contiguous.
- `Layout`: the cell layout for 2 to 4 pages, the aspect fit in its two
  formulations, page sizes, and the vertical flip between canvas and PDF coordinates.
- `Export`: what "Generate and download" emits for each logical page in each front
  end, with images modelled as layers that carry an inversion flag.

Geometry uses Dafny's exact `real` numbers. The paper dimensions of the PDF library
(A4, Letter) are parameters, required to exceed 50 points in each direction. The sizes
of the source pages are parameters too, and are only required to be positive.

The merge preview and the App's inverted raster are laid out on a canvas of 1.5
times the paper size. The scaled size is truncated to whole pixels, because a canvas
stores its width and height as integers (App.tsx:236-237, App.tsx:397-398,
index.js:389-390). The layout then reads those truncated values back: A4 gives 892
by 1262 pixels, not 892.92 by 1262.835. Margin (15) and gap (10) are in canvas
units. In points that is a margin of about 10 and a gap of about 6.67, against 15
and 10 in the App's vector export.

## Model

| member | source | states |
|---|---|---|
| Pages.InitialValid | App.tsx:86-104 | The document built at load time (one Original page per source page, in order) satisfies the invariant and its ids are unique. |
| Pages.UniqueIds | App.tsx:100 | In a valid document no two pages share an id: ids are built as the numeral of the source index (App.tsx:100, App.tsx:153) or as a fresh non-numeral (App.tsx:311), so an id in the selection names at most one page. |
| Numerals.ParseDecimalInverts | App.tsx:100 | Reading back the template-literal id of an original page gives its source index. |
| Numerals.DecimalInjective | index.js:203 | Two original pages have the same id exactly when they have the same source index. |
| Numerals.FreshNeverDecimal | App.tsx:311 | A freshly generated merged-page id never equals the id of any original page. |
| PageOps.PickPartition | App.tsx:139 | Filtering by selection splits a document into selected and unselected pages, and together they hold every page exactly as often as the document does. |
| PageOps.PickAppend | index.js:241 | Filtering a concatenation filters each part and keeps document order. |
| PageOps.ToggleTwice | App.tsx:121-131 | Clicking the same thumbnail twice restores the selection. |
| PageOps.RestoreOriginals | App.tsx:150-155 | Restoring the source indices of a run of Original pages gives back the same pages, ids included. |
| PageOps.SpliceConstructionsAgree | App.tsx:319-331 | When some page is selected, the App's forEach rebuild and the filter-then-splice of index.js both give the pages before the first selected one, then the merged page, then the unselected pages after it. |
| PageOps.SpliceConstructionsDivergeWithoutSelectedPage | index.js:332-334 | When no page carries a selected id, `findIndex` gives -1. The JavaScript splice then inserts the merged page before the last page, while the App rebuild drops it. |
| Viewer.CanMergeAgree | components/PdfViewer.tsx:102 | The React Merge button and the DOM one (index.js:118-122) are enabled in the same states, as long as the selection names only pages of the document and every merged page has a fresh-shaped id (not a numeral, as `crypto.randomUUID()` produces). |
| Viewer.CanMergeDisagreeOnStaleId | index.js:118-122 | A selected id that names no page makes the two Merge buttons disagree. |
| Viewer.PageNumberLabelReadsBack | components/PdfViewer.tsx:163 | A thumbnail number is a numeral that reads back as the 1-based position. |
| Viewer.MergedLabelReadsBack | components/PdfViewer.tsx:61 | The text after "Merged: " on a merged thumbnail reads back as the 1-based source page numbers, in stored order. |
| Viewer.MergedLabelDetermines | index.js:154 | Two merged thumbnails with the same badge have the same source indices in the same order. |
| Editing.SelectPage | App.tsx:121-131 | Clicking a thumbnail flips membership of exactly that id and changes nothing else. |
| Editing.ClearSelection | index.js:233-237 | Clearing empties the selection and changes nothing else. |
| Editing.DeleteSelectedSpec | App.tsx:137-141 | Delete does nothing on an empty selection. Otherwise it keeps exactly the unselected pages, which with the removed pages make up the old document, and it clears the selection. |
| Editing.DeleteKeepsOrder | index.js:239-244 | Deleting from a concatenation deletes from each part, so the surviving pages keep their order. |
| Editing.DemergeTarget | App.tsx:143-149 | The page to demerge is found exactly when one id is selected and the first page carrying it is merged. |
| Editing.Demerge | index.js:246-262 | Without a demergeable selection nothing changes. Otherwise the selection is cleared and the banner and dialog stay as they were. |
| Editing.DemergeSpec | App.tsx:158-170 | Demerge replaces the merged page in place by its restored originals and keeps the pages before and after it. |
| Editing.DemergeChangesDocument | index.js:256-258 | A demerge always changes the document. |
| Editing.OpenMerge | App.tsx:175-182 | The App opens the merge dialog exactly for 2 to 4 selected ids, and otherwise shows the "select 2 to 4 pages" message. |
| Editing.JsOpenMerge | index.js:266-278 | index.js opens the dialog exactly when 2 to 4 ids are selected and every selected page is an original, and otherwise shows the "select 2 to 4 original pages" message. |
| Editing.ConfirmMerge | App.tsx:284-337 | A selection with a merged page is refused with the nested-merge message and the dialog closes. An existing error aborts the merge. Otherwise the merged page is spliced in, the selection is cleared and the dialog closes. |
| Editing.ConfirmMergeSpec | App.tsx:287-331 | The new page sits where the first selected page was. It holds the selected pages' source indices in document order, and the document shrinks by the number of selected pages minus one with the same multiset of source indices. |
| Editing.JsConfirmMerge | index.js:318-340 | index.js replaces the selected pages by one merged page and clears the selection. |
| Editing.ConfirmMergeAgree | index.js:332-334 | On a selection of original pages in the document, both confirm handlers produce the same session. |
| Editing.NestedMergeRejected | App.tsx:294-299 | The App opens the dialog for a selection that includes a merged page, and confirming then leaves the document unchanged and shows the nested-merge message. |
| Editing.MergeExample | App.tsx:319-331 | Merging pages 3 and 1 of a three-page document gives the merged page (sources 0 and 2, in document order) followed by page 2. |
| Invariants.InitialSessionOk | index.js:188-207 | The loaded session satisfies the invariant. |
| Invariants.SelectPagePreserves | index.js:219-231 | Clicking a thumbnail keeps the invariant. |
| Invariants.ClearSelectionPreserves | App.tsx:133-135 | Clearing the selection keeps the invariant. |
| Invariants.DeleteSelectedPreserves | App.tsx:137-141 | Delete keeps the invariant and the ids stay distinct. |
| Invariants.DemergePreserves | App.tsx:143-173 | Demerge keeps the invariant: restored indices were the merged page's own, so they still appear once each. |
| Invariants.ConfirmMergePreserves | App.tsx:284-337 | A merge of 2 to 4 selected pages with a fresh id keeps the invariant. |
| Invariants.JsConfirmMergePreserves | index.js:318-340 | The index.js merge, reached through its guarded dialog, keeps the invariant. |
| Invariants.OpenMergePreserves | App.tsx:175-182 | Opening the dialog keeps the invariant. |
| Invariants.DeleteShrinks | components/PdfViewer.tsx:103 | Whenever Delete is enabled in a valid session, pressing it removes at least one page. |
| RoundTrip.MergeThenDemergeRegroups | App.tsx:158-170 | Merging 2 to 4 originals and then demerging the new page yields the pages before the first selected one, then the selected pages in document order, then the rest. |
| RoundTrip.MergeThenDemergeIsUndoIffContiguous | App.tsx:319-331 | Merge followed by demerge gives the original document back exactly when the selected pages form one contiguous run. |
| RoundTrip.GapClosesExample | App.tsx:319-331 | Merging and demerging pages 1 and 3 of three moves page 3 up next to page 1. |
| Layout.PageDimensionsSwap | App.tsx:184-193 | Landscape sizes are portrait sizes with width and height swapped. |
| Layout.CalculateLayout | App.tsx:195-229 | 2, 3 or 4 cells for 2, 3 or 4 pages, and one cell for any other count. |
| Layout.LayoutInside | App.tsx:195-229 | On a page larger than 40 by 50, every cell has positive size and lies inside the 15-point margins. |
| Layout.LayoutSeparated | index.js:354-382 | Cells are listed top to bottom, left to right, and any two are at least the 10-point gap apart. |
| Layout.LayoutTight | App.tsx:201-224 | All cells have the same size and fill the content area: the outer cells touch the margins and neighbours are exactly one gap apart. |
| Layout.LayoutFallback | App.tsx:225-226 | Any count other than 2 to 4 gets the whole content area. |
| Layout.AspectFitFits | App.tsx:258-272 | The ratio-form fit lies inside its cell, is centred, keeps the image's proportions, and has one side equal to the cell's. |
| Layout.FitFormsAgree | App.tsx:443-455 | The `Math.min` scale fit of the vector export and the ratio-form fit of the canvases give the same box. |
| Layout.MirrorTwice | App.tsx:450-455 | The vertical flip between y-down canvas coordinates and y-up PDF coordinates is its own inverse. |
| Export.InvertTwice | App.tsx:370-373 | Two `difference` blends with white cancel out. |
| Export.ValidExportable | App.tsx:439 | Every document the editor keeps has source indices in range and merged pages of 2 to 4 sources, which is what the planners need. |
| Export.CanvasSize | App.tsx:236-237 | The canvas is the page size scaled by 1.5 and truncated to whole pixels: each side is an integer at most the exact product and within one pixel of it, and it stays large enough for the layout. |
| Export.A4CanvasTruncated | App.tsx:236-237 | With the library's A4 size, the portrait canvas is 892 by 1262 pixels. |
| Export.Preview | App.tsx:231-278 | The merge preview is the background fill, never inverted, followed by one placed layer per source page. |
| Export.AppPlan | App.tsx:339-351 | Export does nothing for an empty document, and otherwise emits exactly one output page per logical page. |
| Export.JsPlan | index.js:416-428 | The index.js export has the same shape: nothing for an empty document, else one output page per logical page. |
| Export.AppPlanSteps | App.tsx:354-395 | Page k's output copies the source page as vectors exactly when the global inversion is off. A merged page is rasterised exactly when its own inversion differs from the global one, and gets its chosen size and background. |
| Export.JsPlanSteps | index.js:430-453 | index.js treats original pages as the App does, and turns every merged page into a raster of its chosen size and background. |
| Export.AppPlanInversion | App.tsx:385-431 | Every page of the App export shows its source pages with the intended inversion: the global one for originals, the page's own XOR the global one for merged pages. |
| Export.ShowsInvertedUnique | App.tsx:370-373 | An output page shows its source pages either inverted or not, never both. |
| Export.PreviewInversion | index.js:395-412 | The preview shows the source pages with the page's own inversion. |
| Export.AppRasterIgnoresBackground | App.tsx:390-436 | The App's inverted raster of a merged page is drawn on an unfilled canvas, so a white and a black background give the same image. |
| Export.JsNetInversion | index.js:448-466 | As written, index.js shows a merged page's sources with the global inversion only. |
| Export.JsPlanInversion | index.js:427-466 | As written, every page of the index.js export shows the global inversion, whatever the page's own setting. |
| Export.JsDropsPageInversion | index.js:453 | A page merged with "invert colours" and exported without the global inversion comes out not inverted, though its preview and the App export show it inverted. |
| Export.JsCorrectedNetInversion | index.js:453-466 | Re-inverting the preview only under the global inversion gives the intended inversion, the same as the App, and inverts the background exactly under the global inversion. |
| Export.JsPlanCorrectedInversion | index.js:427-466 | With that correction, every page of the index.js export shows the intended inversion. |
| Export.VectorDrawsMirrored | App.tsx:443-456 | As written, each vector-drawn source page appears at the vertical mirror image of its fitted place in its cell. |
| Export.FirstOfTwoDrawnLow | App.tsx:450-452 | Of two merged pages, the first one's cell ends above the middle of the page, but its drawing as written lies wholly below it. |
| Export.VectorDrawsCorrectedPlaced | App.tsx:443-456 | With the coordinates flipped before drawing, every source page appears fitted, centred and in proportion inside its own cell. |

## Left out

- Rendering, JPEG encoding and pixel values: images are layers with an inversion flag. The canvas `difference` blend with white and the `invert(1)` filter are both modelled as flipping that flag.
- The PDF library (loading, `copyPages`, `embedPages`, `drawPage`, saving) and the download link. Paper sizes and source page sizes are parameters.
- IEEE floating point: the geometry is over exact reals, so the two fit formulas agree exactly.
- Asynchronous image loading, React state batching and DOM rendering. Each handler is one atomic transition.
- `crypto.randomUUID()`: the new page's id is a parameter. It is required to be fresh-shaped (not a numeral) and unused.
- The branches taken when a canvas has no 2D context (`if (!ctx) continue`, `return ''`): the model assumes a context is always available.
- Export and load failures (the `catch` blocks). A failed load sets an error message and then calls `resetState`, which clears it again (App.tsx:107-108 with App.tsx:57; index.js:210-211 with index.js:69). That is a display issue outside the page model.
- The merge dialog's own state (`handleMergeModalConfigChange`, preview refresh): its result is the `MergeConfig` parameter.
- Processing messages, the busy flag and the global-inversion checkbox: the global inversion is a parameter of the planners.
- Export.CanvasSize: the unsigned-long conversion also wraps values of 2^32 and above. The model leaves that wrap out, because the paper sizes are the library's A4 and Letter, which are far below it.
- Export.AppPlan: the vector path sizes source pages by their PDF size and the raster path by their rendered image. Both are modelled by one `Size` per source page. Rendering at scale 1.5 keeps those proportions only approximately, since the rendered canvas has whole-pixel sizes (App.tsx:93-94, index.js:196-197).
- Export.AppRasterIgnoresBackground: the background rectangle under the App's full-page raster is drawn but covered, so it is not part of the step's image.

## Findings

| source | as written | input that shows it | evidently intended | confidence | as-written member | corrected member |
|---|---|---|---|---|---|---|
| index.js:453 | A merged page's cached preview already carries its own inversion, yet export inverts it again whenever `invertColors !== globalInvert`, so the net inversion is just `globalInvert`. | A page merged with "invert colours" on, exported with global inversion off: the preview shows it inverted, the PDF shows it not inverted. | Invert the cached preview only when `globalInvert` is on, giving net inversion `invertColors XOR globalInvert` as in App.tsx:386. | high, not executed | Export.JsDropsPageInversion | Export.JsPlanCorrectedInversion |
| App.tsx:450-452 | The vector export hands layout coordinates measured from the top of the page (y down) to `drawPage`, which measures from the bottom (y up). | Two merged pages on any paper: page 1's cell is in the top half, but its drawing lands wholly in the bottom half, and page 2 lands in the top half. | Flip each box (`y := height - y - drawHeight`) before drawing, so the output matches the preview. | high, not executed | Export.FirstOfTwoDrawnLow | Export.VectorDrawsCorrectedPlaced |
