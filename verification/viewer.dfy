/** What the page grid and its header derive from the document and the selection:
    which of Delete / Merge / Demerge is enabled, and the labels on the thumbnails.
    The React viewer (components/PdfViewer.tsx) and the DOM version
    (`updateHeaderControls` and `renderPagesGrid` in index.js) compute these
    slightly differently; the lemmas say when they agree. */
module Viewer {
  import opened Prelude
  import opened Numerals
  import opened Pages
  import opened PageOps

  /** `pages.find(p => p.id === id)` */
  function PageWithId(doc: Document, id: PageId): (r: Option<LogicalPage>)
    ensures r.None? <==> forall i | 0 <= i < |doc| :: doc[i].Id() != id
    ensures r.Some? ==> r.value in doc && r.value.Id() == id
  {
    var k := FirstSelected(doc, {id});
    if k == -1 then None else Some(doc[k])
  }

  /** Delete is enabled as soon as something is selected (PdfViewer.tsx:103, index.js:121). */
  predicate CanDelete(sel: Selection) {
    |sel| > 0
  }

  /** PdfViewer.tsx:102: 2 to 4 ids are selected and each of them resolves to an
      Original page; an id that resolves to nothing disables Merge. */
  predicate CanMerge(doc: Document, sel: Selection) {
    && 2 <= |sel| <= 4
    && forall id | id in sel :: PageWithId(doc, id).Some? && PageWithId(doc, id).value.Original?
  }

  /** index.js:118,122: 2 to 4 ids are selected and every page carrying a selected id
      is Original; selected ids that resolve to nothing are not looked at. */
  predicate CanMergeHeader(doc: Document, sel: Selection) {
    && 2 <= |sel| <= 4
    && forall p | p in Pick(doc, sel, true) :: p.Original?
  }

  /** PdfViewer.tsx:100,104 and index.js:119,123: exactly one id is selected and the
      first page carrying it is Merged. */
  predicate CanDemerge(doc: Document, sel: Selection) {
    && |sel| == 1
    && var k := FirstSelected(doc, sel);
       k >= 0 && doc[k].Merged?
  }

  /** Every selected id names a page of the document. */
  predicate SelectionInDocument(doc: Document, sel: Selection) {
    forall id | id in sel :: id in IdsOf(doc)
  }

  /** Merged pages carry fresh (non-numeral) ids, as every valid document has. */
  predicate MergedIdsFresh(doc: Document) {
    forall p | p in doc && p.Merged? :: FreshShaped(p.id)
  }

  /** While the selection only names pages of the document and every merged page has
      a fresh-shaped id, both Merge predicates give the same answer. */
  lemma CanMergeAgree(doc: Document, sel: Selection)
    requires SelectionInDocument(doc, sel)
    requires MergedIdsFresh(doc)
    ensures CanMerge(doc, sel) <==> CanMergeHeader(doc, sel)
  {
    if CanMerge(doc, sel) {
      CanMergeGivesHeader(doc, sel);
    }
    if CanMergeHeader(doc, sel) {
      HeaderGivesCanMerge(doc, sel);
    }
  }

  lemma CanMergeGivesHeader(doc: Document, sel: Selection)
    requires MergedIdsFresh(doc)
    requires CanMerge(doc, sel)
    ensures CanMergeHeader(doc, sel)
  {
    PickMembers(doc, sel, true);
    forall p | p in Pick(doc, sel, true)
      ensures p.Original?
    {
      var w := PageWithId(doc, p.Id()).value;
      assert w.Id() == p.Id();
      if p.Merged? {
        FreshNeverDecimal(p.id, w.sourceIndex);
      }
    }
  }

  lemma HeaderGivesCanMerge(doc: Document, sel: Selection)
    requires SelectionInDocument(doc, sel)
    requires CanMergeHeader(doc, sel)
    ensures CanMerge(doc, sel)
  {
    PickMembers(doc, sel, true);
    forall id | id in sel
      ensures PageWithId(doc, id).Some? && PageWithId(doc, id).value.Original?
    {
      var i :| 0 <= i < |doc| && IdsOf(doc)[i] == id;
      assert doc[i].Id() == id;
      var w := PageWithId(doc, id);
      assert w.value in Pick(doc, sel, true);
    }
  }

  /** A selected id that names no page makes the two predicates disagree: the viewer
      disables Merge, the DOM header enables it. */
  lemma CanMergeDisagreeOnStaleId()
    ensures var doc := [Original(0), Original(1)];
            var sel := {"0", "1", "stale"};
            !CanMerge(doc, sel) && CanMergeHeader(doc, sel)
  {
    var doc := [Original(0), Original(1)];
    var sel := {"0", "1", "stale"};
    assert Decimal(0) == "0" && Decimal(1) == "1";
    assert |sel| == 3;
    assert PageWithId(doc, "stale").None?;
    assert Pick(doc, sel, true) == doc;
  }

  /** Thumbnail number: the 1-based position (PdfViewer.tsx:163, index.js:135). */
  function PageNumberLabel(index: nat): string {
    Decimal(index + 1)
  }

  /** Each source index plus one: the page numbers a user knows from the source PDF. */
  function OneBased(indices: seq<nat>): (r: seq<nat>)
    ensures |r| == |indices|
    ensures forall j | 0 <= j < |r| :: r[j] == indices[j] + 1
  {
    seq(|indices|, j requires 0 <= j < |indices| => indices[j] + 1)
  }

  /** The badge on a Merged thumbnail (PdfViewer.tsx:61, index.js:154). */
  function MergedLabel(indices: seq<nat>): string {
    "Merged: " + JoinDecimals(OneBased(indices))
  }

  /** A thumbnail number reads back as the 1-based position, so it is never 0. */
  lemma PageNumberLabelReadsBack(index: nat)
    ensures AllDigits(PageNumberLabel(index))
    ensures ParseDecimal(PageNumberLabel(index)) == index + 1
  {
    ParseDecimalInverts(index + 1);
  }

  /** The Merged badge names the source pages in stored order: the text after
      "Merged: " reads back as the 1-based source page numbers, so the badge
      determines the page's source indices. */
  lemma MergedLabelReadsBack(indices: seq<nat>)
    ensures |MergedLabel(indices)| >= 8 && MergedLabel(indices)[..8] == "Merged: "
    ensures ParseDecimalList(MergedLabel(indices)[8..]) == Some(OneBased(indices))
  {
    ParseJoinInverts(OneBased(indices));
    assert MergedLabel(indices)[8..] == JoinDecimals(OneBased(indices));
  }

  lemma MergedLabelDetermines(a: seq<nat>, b: seq<nat>)
    requires MergedLabel(a) == MergedLabel(b)
    ensures a == b
  {
    MergedLabelReadsBack(a);
    MergedLabelReadsBack(b);
    assert OneBased(a) == OneBased(b);
    assert |a| == |b|;
    forall j | 0 <= j < |a|
      ensures a[j] == b[j]
    {
      assert OneBased(a)[j] == OneBased(b)[j];
    }
  }
}
