/** The editing handlers as transitions of a session: the document, the selection,
    the error banner and whether the merge dialog is open.

    Both front ends share the selection, delete and demerge handlers
    (App.tsx:121-173, index.js:225-262). They differ in how a merge is guarded and
    spliced in: App.tsx checks only the selection size when the dialog opens and
    rejects Merged pages on confirm, while index.js checks both when the dialog opens
    and splices with filter-then-insert. The new page's id (`crypto.randomUUID()`) and the
    dialog's choices are parameters. */
module Editing {
  import opened Prelude
  import opened Numerals
  import opened Pages
  import opened PageOps
  import opened Viewer

  /** The three messages the editing handlers can put in the error banner. */
  datatype Alert =
    | SelectTwoToFour           // App.tsx:177
    | SelectTwoToFourOriginals  // index.js:270
    | NestedMergeUnsupported    // App.tsx:297

  /** The choices made in the merge dialog. */
  datatype MergeConfig = MergeConfig(pageSize: PageSize, background: Background, invertColors: bool)

  datatype Session = Session(doc: Document, selected: Selection, alert: Option<Alert>, mergeDialogOpen: bool)

  /** Clicking a thumbnail toggles its id; nothing else changes. */
  function SelectPage(s: Session, id: PageId): (r: Session)
    ensures r.doc == s.doc && r.alert == s.alert && r.mergeDialogOpen == s.mergeDialogOpen
    ensures (id in r.selected) != (id in s.selected)
    ensures forall x | x != id :: x in r.selected <==> x in s.selected
  {
    s.(selected := Toggle(s.selected, id))
  }

  function ClearSelection(s: Session): (r: Session)
    ensures r.doc == s.doc && r.alert == s.alert && r.mergeDialogOpen == s.mergeDialogOpen
    ensures forall x :: x !in r.selected
  {
    s.(selected := {})
  }

  /** Delete the selected pages (App.tsx:137-141, index.js:240-245). */
  function DeleteSelected(s: Session): (r: Session)
    ensures r.alert == s.alert && r.mergeDialogOpen == s.mergeDialogOpen
  {
    if |s.selected| == 0 then s
    else s.(doc := Pick(s.doc, s.selected, false), selected := {})
  }

  /** With nothing selected Delete does nothing. Otherwise the document keeps exactly
      the unselected pages, the pages removed are exactly the selected ones, and the
      selection is cleared. */
  lemma DeleteSelectedSpec(s: Session)
    ensures |s.selected| == 0 ==> DeleteSelected(s) == s
    ensures |s.selected| > 0 ==>
      var r := DeleteSelected(s);
      && r.selected == {}
      && (forall p :: p in r.doc <==> p in s.doc && p.Id() !in s.selected)
      && multiset(r.doc) + multiset(Pick(s.doc, s.selected, true)) == multiset(s.doc)
  {
    PickMembers(s.doc, s.selected, false);
    PickPartition(s.doc, s.selected);
  }

  /** Delete keeps the relative order of the pages it keeps: it is the unselected
      part of the document, and appending more pages to the document appends their
      unselected part to the result. */
  lemma DeleteKeepsOrder(a: Document, b: Document, sel: Selection)
    ensures var s := Session(a + b, sel, None, false);
            DeleteSelected(s).doc
            == DeleteSelected(Session(a, sel, None, false)).doc + DeleteSelected(Session(b, sel, None, false)).doc
  {
    PickAppend(a, b, sel, false);
  }

  /** Where the demerge handler finds the page to expand: `find`, then `findIndex`,
      by the one selected id (App.tsx:144-153). -1 when there is none to expand. */
  function DemergeTarget(doc: Document, sel: Selection): (k: int)
    ensures -1 <= k < |doc|
    ensures k >= 0 <==> CanDemerge(doc, sel)
    ensures k >= 0 ==> k == FirstSelected(doc, sel) && doc[k].Merged?
  {
    if |sel| != 1 then -1
    else
      var id := Single(sel);
      var k := FirstSelected(doc, {id});
      if k == -1 || !doc[k].Merged? then -1 else k
  }

  /** Expand the single selected Merged page into Original pages, one per stored
      source index, in place (App.tsx:143-173, index.js:246-262). */
  function Demerge(s: Session): (r: Session)
    ensures !CanDemerge(s.doc, s.selected) ==> r == s
    ensures CanDemerge(s.doc, s.selected) ==>
      r.selected == {} && r.alert == s.alert && r.mergeDialogOpen == s.mergeDialogOpen
  {
    var k := DemergeTarget(s.doc, s.selected);
    if k == -1 then s
    else s.(doc := Replace(s.doc, k, Restore(s.doc[k].sourceIndices)), selected := {})
  }

  /** `r` is `doc` with the page at `k` replaced by one Original page per index of
      `indices`, in order, and the pages before and after it untouched. */
  predicate ExpandedAt(r: Document, doc: Document, k: nat, indices: seq<nat>) {
    && k < |doc|
    && |r| == |doc| - 1 + |indices|
    && r[..k] == doc[..k]
    && (forall j | 0 <= j < |indices| :: r[k + j] == Original(indices[j]))
    && r[k + |indices|..] == doc[k + 1..]
  }

  /** A successful demerge replaces exactly the Merged page at the first selected
      position by one Original page per stored source index, in stored order; the
      pages before and after it are untouched. */
  lemma DemergeSpec(s: Session)
    requires CanDemerge(s.doc, s.selected)
    ensures var k := FirstSelected(s.doc, s.selected);
            && 0 <= k < |s.doc|
            && ExpandedAt(Demerge(s).doc, s.doc, k, s.doc[k].sourceIndices)
  {
    var k := FirstSelected(s.doc, s.selected);
    DemergeDocument(s);
    ExpandInPlace(s.doc, k, s.doc[k].sourceIndices);
  }

  lemma DemergeDocument(s: Session)
    requires CanDemerge(s.doc, s.selected)
    ensures var k := FirstSelected(s.doc, s.selected);
            && 0 <= k < |s.doc| && s.doc[k].Merged?
            && Demerge(s).doc == Replace(s.doc, k, Restore(s.doc[k].sourceIndices))
  {
  }

  lemma ExpandInPlace(doc: Document, k: nat, indices: seq<nat>)
    requires k < |doc|
    ensures ExpandedAt(Replace(doc, k, Restore(indices)), doc, k, indices)
  {
    var r := Replace(doc, k, Restore(indices));
    forall j | 0 <= j < |indices|
      ensures r[k + j] == Original(indices[j])
    {
      assert r[k + j] == r[k..k + |indices|][j];
    }
  }

  /** Whenever the viewer enables Demerge, demerging changes the document: the Merged
      page is gone and only Original pages take its place. */
  lemma DemergeChangesDocument(s: Session)
    requires CanDemerge(s.doc, s.selected)
    ensures Demerge(s).doc != s.doc
  {
    var k := FirstSelected(s.doc, s.selected);
    var m := s.doc[k];
    var restored := Restore(m.sourceIndices);
    var r := Demerge(s).doc;
    assert r == s.doc[..k] + restored + s.doc[k + 1..];
    assert s.doc == s.doc[..k] + [m] + s.doc[k + 1..];
    forall j | 0 <= j < |restored|
      ensures restored[j] != m
    {
      assert restored[j].Original?;
    }
    assert m !in multiset(restored);
    assert multiset(r)[m] == multiset(s.doc[..k])[m] + multiset(s.doc[k + 1..])[m];
    assert multiset(s.doc)[m] == multiset(s.doc[..k])[m] + 1 + multiset(s.doc[k + 1..])[m];
  }

  /** App.tsx:175-182: the dialog opens for 2 to 4 selected ids, whatever kind of
      pages they name; otherwise the banner asks for 2 to 4 pages. */
  function OpenMerge(s: Session): (r: Session)
    ensures r.doc == s.doc && r.selected == s.selected
    ensures r.mergeDialogOpen == (2 <= |s.selected| <= 4 || s.mergeDialogOpen)
    ensures r.alert == (if 2 <= |s.selected| <= 4 then None else Some(SelectTwoToFour))
  {
    if |s.selected| < 2 || |s.selected| > 4 then s.(alert := Some(SelectTwoToFour))
    else s.(alert := None, mergeDialogOpen := true)
  }

  /** index.js:266-277: the dialog opens only when the header's Merge predicate holds;
      otherwise the banner asks for 2 to 4 original pages. */
  function JsOpenMerge(s: Session): (r: Session)
    ensures r.doc == s.doc && r.selected == s.selected
    ensures r.mergeDialogOpen == (CanMergeHeader(s.doc, s.selected) || s.mergeDialogOpen)
    ensures r.alert == (if CanMergeHeader(s.doc, s.selected) then None else Some(SelectTwoToFourOriginals))
  {
    if !CanMergeHeader(s.doc, s.selected) then s.(alert := Some(SelectTwoToFourOriginals))
    else s.(alert := None, mergeDialogOpen := true)
  }

  predicate AllOriginal(pages: Document) {
    forall p | p in pages :: p.Original?
  }

  /** The page a merge creates: the selected pages' source indices in document order,
      with the dialog's choices. */
  function NewMergedPage(doc: Document, sel: Selection, config: MergeConfig, newId: PageId): (m: LogicalPage)
    ensures m.Merged? && m.id == newId
    ensures m.pageSize == config.pageSize && m.background == config.background
    ensures m.invertColors == config.invertColors
  {
    Merged(newId, Flat(Pick(doc, sel, true)), config.pageSize, config.background, config.invertColors)
  }

  /** App.tsx:284-338. A selected Merged page aborts with a banner and closes the
      dialog. A banner that is still showing (`if (error) return`) leaves everything
      as it is. Otherwise the new page replaces the first selected page, the other
      selected pages are dropped, the selection is cleared and the dialog closes. */
  function ConfirmMerge(s: Session, config: MergeConfig, newId: PageId): (r: Session)
    ensures !AllOriginal(Pick(s.doc, s.selected, true)) ==>
      r == s.(alert := Some(NestedMergeUnsupported), mergeDialogOpen := false)
    ensures AllOriginal(Pick(s.doc, s.selected, true)) && s.alert.Some? ==> r == s
    ensures AllOriginal(Pick(s.doc, s.selected, true)) && s.alert.None? ==>
      r.selected == {} && !r.mergeDialogOpen && r.alert == None
  {
    var chosen := Pick(s.doc, s.selected, true);
    if !AllOriginal(chosen) then s.(alert := Some(NestedMergeUnsupported), mergeDialogOpen := false)
    else if s.alert.Some? then s
    else
      var m := NewMergedPage(s.doc, s.selected, config, newId);
      var k := FirstSelected(s.doc, s.selected);
      s.(doc := AppSplice(s.doc, s.selected, m, k), selected := {}, mergeDialogOpen := false)
  }

  /** index.js:318-340: filter out the selected pages, then insert the new page at
      the first selected index. The dialog is only open after `JsOpenMerge`'s guard
      passed, so the selected pages are Original. */
  function JsConfirmMerge(s: Session, config: MergeConfig, newId: PageId): (r: Session)
    requires AllOriginal(Pick(s.doc, s.selected, true))
    ensures r.selected == {} && !r.mergeDialogOpen && r.alert == s.alert
    ensures |r.doc| == |Pick(s.doc, s.selected, false)| + 1
  {
    var m := NewMergedPage(s.doc, s.selected, config, newId);
    var k := FirstSelected(s.doc, s.selected);
    s.(doc := JsInsert(Pick(s.doc, s.selected, false), k, m), selected := {}, mergeDialogOpen := false)
  }

  /** Run of an Original page's source index: an all-Original run flattens to one
      index per page. */
  lemma OriginalsFlat(pages: Document)
    requires AllOriginal(pages)
    ensures |Flat(pages)| == |pages|
    ensures forall j | 0 <= j < |pages| :: Flat(pages)[j] == pages[j].sourceIndex
  {
    RestoreOriginals(pages);
  }

  /** A successful merge: the new page stands at the first selected position, holds
      the selected pages' source indices in document order (not selection order),
      the pages before it are untouched, the unselected pages after it keep their
      order, the document shrinks to `|doc| - count + 1`, and the document still
      shows the same source indices. */
  lemma ConfirmMergeSpec(s: Session, config: MergeConfig, newId: PageId)
    requires AllOriginal(Pick(s.doc, s.selected, true)) && s.alert.None?
    requires FirstSelected(s.doc, s.selected) >= 0
    ensures var r := ConfirmMerge(s, config, newId);
            var k := FirstSelected(s.doc, s.selected);
            var chosen := Pick(s.doc, s.selected, true);
            && r.doc == s.doc[..k] + [NewMergedPage(s.doc, s.selected, config, newId)] + Pick(s.doc[k..], s.selected, false)
            && r.doc[k].sourceIndices == seq(|chosen|, j requires 0 <= j < |chosen| => chosen[j].sourceIndex)
            && |r.doc| == |s.doc| - |chosen| + 1
            && multiset(Flat(r.doc)) == multiset(Flat(s.doc))
  {
    var k := FirstSelected(s.doc, s.selected);
    var m := NewMergedPage(s.doc, s.selected, config, newId);
    ConfirmMergeDocument(s, config, newId);
    SpliceConstructionsAgree(s.doc, s.selected, m);
    InsertedAt(s.doc[..k], m, Pick(s.doc[k..], s.selected, false));
    MergedPageContents(s.doc, s.selected, config, newId);
    MergedDocumentCounts(s.doc, s.selected, m);
  }

  lemma ConfirmMergeDocument(s: Session, config: MergeConfig, newId: PageId)
    requires AllOriginal(Pick(s.doc, s.selected, true)) && s.alert.None?
    ensures ConfirmMerge(s, config, newId).doc
            == AppSplice(s.doc, s.selected, NewMergedPage(s.doc, s.selected, config, newId), FirstSelected(s.doc, s.selected))
  {
  }

  /** The new page lists the selected pages' source indices in document order. */
  lemma MergedPageContents(doc: Document, sel: Selection, config: MergeConfig, newId: PageId)
    requires AllOriginal(Pick(doc, sel, true))
    ensures var chosen := Pick(doc, sel, true);
            NewMergedPage(doc, sel, config, newId).sourceIndices
            == seq(|chosen|, j requires 0 <= j < |chosen| => chosen[j].sourceIndex)
  {
    OriginalsFlat(Pick(doc, sel, true));
  }

  /** The merged document loses the selected pages, gains the new one, and shows the
      same source indices when the new page holds the selected pages' indices. */
  lemma MergedDocumentCounts(doc: Document, sel: Selection, m: LogicalPage)
    requires FirstSelected(doc, sel) >= 0
    ensures var r := AppSplice(doc, sel, m, FirstSelected(doc, sel));
            && |r| == |doc| - |Pick(doc, sel, true)| + 1
            && multiset(Flat(r)) == multiset(Flat(Pick(doc, sel, false))) + multiset(m.Indices())
            && (m.Indices() == Flat(Pick(doc, sel, true)) ==> multiset(Flat(r)) == multiset(Flat(doc)))
  {
    var k := FirstSelected(doc, sel);
    var u := Pick(doc, sel, false);
    UnselectedAroundFirst(doc, sel, k);
    SpliceConstructionsAgree(doc, sel, m);
    assert k <= |u|;
    assert JsInsert(u, k, m) == u[..k] + [m] + u[k..];
    InsertFlat(u, k, m);
    PickPartition(doc, sel);
  }

  /** Inserting a page into a run adds its source indices to the run's multiset. */
  lemma InsertFlat(u: Document, k: int, m: LogicalPage)
    requires 0 <= k <= |u|
    ensures multiset(Flat(u[..k] + [m] + u[k..])) == multiset(Flat(u)) + multiset(m.Indices())
  {
    var a := u[..k];
    var b := u[k..];
    assert u == a + b;
    FlatAppend(a, b);
    FlatInsert(a, m, b);
    MultisetInsert(Flat(a), m.Indices(), Flat(b));
  }

  /** The two front ends build the same document from the same selection whenever it
      names a page of the document. */
  lemma ConfirmMergeAgree(s: Session, config: MergeConfig, newId: PageId)
    requires AllOriginal(Pick(s.doc, s.selected, true)) && s.alert.None?
    requires FirstSelected(s.doc, s.selected) >= 0
    ensures ConfirmMerge(s, config, newId) == JsConfirmMerge(s, config, newId)
  {
    var m := NewMergedPage(s.doc, s.selected, config, newId);
    SpliceConstructionsAgree(s.doc, s.selected, m);
  }

  /** The App guard lets Merged pages through to the confirm step; the confirm step
      then refuses them and the document is unchanged. */
  lemma NestedMergeRejected(s: Session, config: MergeConfig, newId: PageId)
    requires 2 <= |s.selected| <= 4
    requires exists p | p in s.doc :: p.Merged? && p.Id() in s.selected
    ensures OpenMerge(s).mergeDialogOpen
    ensures var r := ConfirmMerge(OpenMerge(s), config, newId);
            r.doc == s.doc && r.selected == s.selected
            && r.alert == Some(NestedMergeUnsupported) && !r.mergeDialogOpen
  {
    var p :| p in s.doc && p.Merged? && p.Id() in s.selected;
    PickMembers(s.doc, s.selected, true);
    assert p in Pick(s.doc, s.selected, true);
  }

  /** A worked instance: in a three-page document, selecting the third and then the
      first page and merging gives the merged page first, holding source pages 0 and
      2 in document order, followed by page 1. */
  lemma MergeExample(config: MergeConfig, newId: PageId)
    ensures var s := Session(InitialDocument(3), {"2", "0"}, None, true);
            ConfirmMerge(s, config, newId).doc
            == [Merged(newId, [0, 2], config.pageSize, config.background, config.invertColors), Original(1)]
  {
    var doc := [Original(0), Original(1), Original(2)];
    var sel: Selection := {"0", "2"};
    var s := Session(doc, sel, None, true);
    ThreePages();
    ThreePicks();
    ExampleMergedPage(config, newId);
    ConfirmMergeSpec(s, config, newId);
    ExampleSplice(NewMergedPage(doc, sel, config, newId));
    assert sel == {"2", "0"};
  }

  lemma ExampleMergedPage(config: MergeConfig, newId: PageId)
    ensures NewMergedPage([Original(0), Original(1), Original(2)], {"0", "2"}, config, newId)
            == Merged(newId, [0, 2], config.pageSize, config.background, config.invertColors)
  {
    ThreePicks();
  }

  lemma ExampleSplice(m: LogicalPage)
    ensures var doc := [Original(0), Original(1), Original(2)];
            doc[..0] + [m] + Pick(doc[0..], {"0", "2"}, false) == [m, Original(1)]
  {
    var doc := [Original(0), Original(1), Original(2)];
    ThreePicks();
    assert doc[..0] == [] && doc[0..] == doc;
  }

  /** The document loaded from a three-page PDF. */
  lemma ThreePages()
    ensures InitialDocument(3) == [Original(0), Original(1), Original(2)]
  {
  }

  /** Selecting the first and last of three Original pages. */
  lemma ThreePicks()
    ensures var doc := [Original(0), Original(1), Original(2)];
            var sel: Selection := {"0", "2"};
            && Pick(doc, sel, true) == [Original(0), Original(2)]
            && Pick(doc, sel, false) == [Original(1)]
            && FirstSelected(doc, sel) == 0
            && AllOriginal(Pick(doc, sel, true))
            && Flat(Pick(doc, sel, true)) == [0, 2]
  {
    var doc := [Original(0), Original(1), Original(2)];
    assert Decimal(0) == "0" && Decimal(1) == "1" && Decimal(2) == "2";
    assert doc[1..] == [Original(1), Original(2)];
    assert doc[1..][1..] == [Original(2)];
    assert doc[1..][1..][1..] == [];
    ThreeFlat();
  }

  lemma ThreeFlat()
    ensures Flat([Original(0), Original(2)]) == [0, 2]
  {
    assert [Original(0), Original(2)][1..] == [Original(2)];
    assert [Original(2)][1..] == [];
  }
}
