/** Merge followed by demerge of the new page is not a general undo.

    The merged page goes where the first selected page was, and demerge expands it
    in place. So the restored pages come back as one block at that position. This
    is the original document exactly when the selected pages already formed one
    contiguous run (App.tsx:158-170 with App.tsx:319-331). */
module RoundTrip {
  import opened Prelude
  import opened Numerals
  import opened Pages
  import opened PageOps
  import opened Viewer
  import opened Editing
  import opened Invariants

  /** The selected pages are exactly the positions `a` up to `b`. */
  predicate RunAt(doc: Document, sel: Selection, a: int, b: int) {
    && 0 <= a <= b <= |doc|
    && forall i | 0 <= i < |doc| :: (doc[i].Id() in sel <==> a <= i < b)
  }

  ghost predicate Contiguous(doc: Document, sel: Selection) {
    exists a, b :: RunAt(doc, sel, a, b)
  }

  /** Open the dialog, confirm, click the new page, demerge it. */
  function MergeThenDemerge(s: Session, config: MergeConfig, newId: PageId): Session {
    Demerge(SelectPage(ConfirmMerge(OpenMerge(s), config, newId), newId))
  }

  /** Where the pages land: the unselected pages before the first selected one, then
      all selected pages in document order, then the unselected pages after it. */
  function Regrouped(doc: Document, sel: Selection, k: nat): Document
    requires k <= |doc|
  {
    doc[..k] + Pick(doc, sel, true) + Pick(doc[k..], sel, false)
  }

  /** For a selection of 2 to 4 Original pages, in a session satisfying the
      invariant and a new id no page carries, the round trip gives the regrouped
      document and an empty selection. */
  lemma MergeThenDemergeRegroups(s: Session, n: nat, config: MergeConfig, newId: PageId)
    requires SessionOk(s, n)
    requires 2 <= |s.selected| <= 4
    requires AllOriginal(Pick(s.doc, s.selected, true))
    requires FreshShaped(newId) && newId !in IdsOf(s.doc)
    ensures FirstSelected(s.doc, s.selected) >= 0
    ensures var r := MergeThenDemerge(s, config, newId);
            && r.doc == Regrouped(s.doc, s.selected, FirstSelected(s.doc, s.selected))
            && r.selected == {}
  {
    var doc := s.doc;
    var sel := s.selected;
    MergeIngredients(s, n, config, newId);
    var k := FirstSelected(doc, sel);
    var chosen := Pick(doc, sel, true);
    var m := NewMergedPage(doc, sel, config, newId);
    var s1 := OpenMerge(s);
    assert s1.alert.None? && s1.doc == doc && s1.selected == sel;
    var s2 := ConfirmMerge(s1, config, newId);
    ConfirmMergeSpec(s1, config, newId);
    var after := Pick(doc[k..], sel, false);
    assert s2.doc == doc[..k] + [m] + after;
    DemergeNewPage(s2, doc, k, m, after);
    RestoreOriginals(chosen);
    assert Restore(m.sourceIndices) == chosen;
  }

  /** Clicking the page just inserted at `k` and demerging it puts its restored
      pages at `k`, between the same neighbours. */
  lemma DemergeNewPage(s: Session, doc: Document, k: nat, m: LogicalPage, after: Document)
    requires k <= |doc| && m.Merged?
    requires m.Id() !in IdsOf(doc)
    requires s.doc == doc[..k] + [m] + after && s.selected == {}
    ensures var r := Demerge(SelectPage(s, m.id));
            r.doc == doc[..k] + Restore(m.sourceIndices) + after && r.selected == {}
  {
    var mid := s.doc;
    var s3 := SelectPage(s, m.id);
    assert s3.selected == {m.id};
    NewPageFoundAt(doc, k, m, after);
    assert mid[k] == m;
    assert CanDemerge(mid, s3.selected);
    assert Demerge(s3).doc == Replace(mid, k, Restore(m.sourceIndices));
    assert mid[..k] == doc[..k];
    assert mid[k + 1..] == after;
  }

  /** In `doc[..k] + [m] + rest` the first page carrying `m`'s id is `m`, when no
      page of `doc` carries it. */
  lemma NewPageFoundAt(doc: Document, k: nat, m: LogicalPage, rest: Document)
    requires k <= |doc|
    requires m.Id() !in IdsOf(doc)
    ensures FirstSelected(doc[..k] + [m] + rest, {m.Id()}) == k
  {
    var mid := doc[..k] + [m] + rest;
    forall i | 0 <= i < k
      ensures mid[i].Id() !in {m.Id()}
    {
      assert mid[i] == doc[i];
      assert IdsOf(doc)[i] == doc[i].Id();
    }
    assert mid[k] == m;
  }

  /** Contiguous selections come back exactly, with the same pages and ids. */
  lemma ContiguousRoundTrip(doc: Document, sel: Selection, k: nat)
    requires k == FirstSelected(doc, sel)
    requires Contiguous(doc, sel)
    ensures Regrouped(doc, sel, k) == doc
  {
    var a, b :| RunAt(doc, sel, a, b);
    assert doc[k].Id() in sel;
    assert a <= k < b;
    assert doc[a].Id() in sel;
    RunPieces(doc, sel, k, b);
    assert doc[..k] + doc[k..b] + doc[b..] == doc;
  }

  /** A run starting at `k`: the selected pages are the run, and the unselected pages
      from `k` on are those after it. */
  lemma RunPieces(doc: Document, sel: Selection, k: int, b: int)
    requires RunAt(doc, sel, k, b)
    ensures Pick(doc, sel, true) == doc[k..b]
    ensures Pick(doc[k..], sel, false) == doc[b..]
  {
    RunSelected(doc, sel, k, b);
    RunRest(doc, sel, k, b);
  }

  lemma RunSelected(doc: Document, sel: Selection, k: int, b: int)
    requires RunAt(doc, sel, k, b)
    ensures Pick(doc, sel, true) == doc[k..b]
  {
    RunSegments(doc, sel, k, b);
    SplitThree(doc, k, b);
    PickOnlyMiddle(doc[..k], doc[k..b], doc[b..], sel);
  }

  lemma PickOnlyMiddle(pre: Document, run: Document, post: Document, sel: Selection)
    requires Pick(pre, sel, true) == [] && Pick(post, sel, true) == []
    requires Pick(run, sel, true) == run
    ensures Pick(pre + run + post, sel, true) == run
  {
    PickAppend3(pre, run, post, sel, true);
    assert [] + run + [] == run;
  }

  lemma RunRest(doc: Document, sel: Selection, k: int, b: int)
    requires RunAt(doc, sel, k, b)
    ensures Pick(doc[k..], sel, false) == doc[b..]
  {
    var run := doc[k..b];
    var post := doc[b..];
    RunSegments(doc, sel, k, b);
    assert doc[k..] == run + post;
    PickAppend(run, post, sel, false);
    assert [] + post == post;
  }

  /** Around a run, the segments before and after hold no selected page and the run
      holds only selected ones. */
  lemma RunSegments(doc: Document, sel: Selection, k: int, b: int)
    requires RunAt(doc, sel, k, b)
    ensures Pick(doc[..k], sel, true) == [] && Pick(doc[b..], sel, true) == []
    ensures Pick(doc[b..], sel, false) == doc[b..]
    ensures Pick(doc[k..b], sel, true) == doc[k..b] && Pick(doc[k..b], sel, false) == []
  {
    PickAll(doc[..k], sel, false);
    PickAll(doc[k..b], sel, true);
    PickAll(doc[b..], sel, false);
  }

  /** Conversely, getting the document back means the selection was one run, from
      the first selected page on. */
  lemma RoundTripMeansContiguous(doc: Document, sel: Selection, k: nat)
    requires k == FirstSelected(doc, sel)
    requires Regrouped(doc, sel, k) == doc
    ensures RunAt(doc, sel, k, k + |Pick(doc, sel, true)|)
  {
    var chosen := Pick(doc, sel, true);
    var after := Pick(doc[k..], sel, false);
    var b := k + |chosen|;
    assert doc[..k] + chosen + after == doc;
    assert b <= |doc|;
    PickMembers(doc, sel, true);
    PickMembers(doc[k..], sel, false);
    forall i | 0 <= i < |doc|
      ensures doc[i].Id() in sel <==> k <= i < b
    {
      if i < k {
        assert doc[i].Id() !in sel;
      } else if i < b {
        assert doc[i] == chosen[i - k];
        assert chosen[i - k] in chosen;
      } else {
        assert doc[i] == after[i - b];
        assert after[i - b] in after;
      }
    }
  }

  /** Merge then demerge gives the document back, with the same ids, exactly when the
      selected pages form one contiguous run. */
  lemma MergeThenDemergeIsUndoIffContiguous(s: Session, n: nat, config: MergeConfig, newId: PageId)
    requires SessionOk(s, n)
    requires 2 <= |s.selected| <= 4
    requires AllOriginal(Pick(s.doc, s.selected, true))
    requires FreshShaped(newId) && newId !in IdsOf(s.doc)
    ensures MergeThenDemerge(s, config, newId).doc == s.doc <==> Contiguous(s.doc, s.selected)
  {
    MergeThenDemergeRegroups(s, n, config, newId);
    var k := FirstSelected(s.doc, s.selected);
    if Contiguous(s.doc, s.selected) {
      ContiguousRoundTrip(s.doc, s.selected, k);
    }
    if MergeThenDemerge(s, config, newId).doc == s.doc {
      RoundTripMeansContiguous(s.doc, s.selected, k);
    }
  }

  /** A non-contiguous example: selecting pages 0 and 2 of three and merging then
      demerging moves page 2 up next to page 0. */
  lemma GapClosesExample(config: MergeConfig, newId: PageId)
    requires FreshShaped(newId)
    ensures var s := Session(InitialDocument(3), {"0", "2"}, None, false);
            MergeThenDemerge(s, config, newId).doc == [Original(0), Original(2), Original(1)]
  {
    ExampleSession(newId);
    var doc := [Original(0), Original(1), Original(2)];
    var sel: Selection := {"0", "2"};
    var s := Session(doc, sel, None, false);
    ThreePicks();
    MergeThenDemergeRegroups(s, 3, config, newId);
    ExampleRegrouped();
  }

  lemma ExampleRegrouped()
    ensures Regrouped([Original(0), Original(1), Original(2)], {"0", "2"}, 0)
            == [Original(0), Original(2), Original(1)]
  {
    var doc := [Original(0), Original(1), Original(2)];
    ThreePicks();
    assert doc[..0] == [] && doc[0..] == doc;
  }

  lemma ExampleSession(newId: PageId)
    requires FreshShaped(newId)
    ensures var doc := InitialDocument(3);
            var sel: Selection := {"0", "2"};
            && doc == [Original(0), Original(1), Original(2)]
            && SessionOk(Session(doc, sel, None, false), 3)
            && |sel| == 2
            && newId !in IdsOf(doc)
  {
    ThreePages();
    ExampleSessionOk();
    ExampleFreshId(newId);
    SelectionFirstLast();
  }

  lemma ExampleSessionOk()
    ensures SessionOk(Session([Original(0), Original(1), Original(2)], {"0", "2"}, None, false), 3)
  {
    ThreePages();
    InitialValid(3);
    SelectionFirstLast();
  }

  lemma ExampleFreshId(newId: PageId)
    requires FreshShaped(newId)
    ensures newId !in IdsOf([Original(0), Original(1), Original(2)])
  {
    ThreeIds();
    FreshNeverDecimal(newId, 0);
    FreshNeverDecimal(newId, 1);
    FreshNeverDecimal(newId, 2);
  }

  lemma ThreeIds()
    ensures IdsOf([Original(0), Original(1), Original(2)]) == [Decimal(0), Decimal(1), Decimal(2)]
  {
    var doc := [Original(0), Original(1), Original(2)];
    assert doc[1..] == [Original(1), Original(2)];
    assert doc[1..][1..] == [Original(2)];
    assert doc[1..][1..][1..] == [];
  }

  /** The selection of the first and last of three pages names two pages of the
      document. */
  lemma SelectionFirstLast()
    ensures var sel: Selection := {"0", "2"};
            && |sel| == 2
            && SelectionInDocument([Original(0), Original(1), Original(2)], sel)
  {
    ThreeIds();
    assert Decimal(0) == "0" && Decimal(1) == "1" && Decimal(2) == "2";
  }
}
