/** The session invariant and its preservation by every editing handler.

    The document invariant `Pages.Valid` (no source index shown twice, Merged pages
    of 2 to 4 sources with fresh, pairwise different ids) together with "every
    selected id names a page" is established at load time and kept by select, clear,
    delete, demerge and both merge constructions. Unique page ids follow from it
    (`Pages.UniqueIds`): a demerge recreates ids `${i}`, and those cannot collide
    because the index `i` was shown only by the page being expanded. */
module Invariants {
  import opened Prelude
  import opened Numerals
  import opened Pages
  import opened PageOps
  import opened Viewer
  import opened Editing

  predicate SessionOk(s: Session, n: nat) {
    Valid(s.doc, n) && SelectionInDocument(s.doc, s.selected)
  }

  /** The ids of the pages of a document, as a set. */
  function IdSet(doc: Document): set<PageId> {
    set p | p in doc :: p.Id()
  }

  /** A freshly loaded file: all pages Original, nothing selected, no banner. */
  lemma InitialSessionOk(n: nat)
    ensures SessionOk(Session(InitialDocument(n), {}, None, false), n)
    ensures Distinct(IdsOf(InitialDocument(n)))
  {
    InitialValid(n);
  }

  /** Clicking a thumbnail: the clicked id is one of the document's ids. */
  lemma SelectPagePreserves(s: Session, n: nat, id: PageId)
    requires SessionOk(s, n)
    requires id in IdsOf(s.doc)
    ensures SessionOk(SelectPage(s, id), n)
  {
  }

  lemma ClearSelectionPreserves(s: Session, n: nat)
    requires SessionOk(s, n)
    ensures SessionOk(ClearSelection(s), n)
  {
  }

  lemma DeleteSelectedPreserves(s: Session, n: nat)
    requires SessionOk(s, n)
    ensures SessionOk(DeleteSelected(s), n)
    ensures Distinct(IdsOf(DeleteSelected(s).doc))
  {
    if |s.selected| > 0 {
      var u := Pick(s.doc, s.selected, false);
      PickPartition(s.doc, s.selected);
      PickMembers(s.doc, s.selected, false);
      PickMergedIds(s.doc, s.selected, false);
      ValidFrom(s.doc, u, n);
    }
    UniqueIds(DeleteSelected(s).doc, n);
  }

  lemma DemergePreserves(s: Session, n: nat)
    requires SessionOk(s, n)
    ensures SessionOk(Demerge(s), n)
    ensures Distinct(IdsOf(Demerge(s).doc))
  {
    if CanDemerge(s.doc, s.selected) {
      var k := FirstSelected(s.doc, s.selected);
      var indices := s.doc[k].sourceIndices;
      assert Demerge(s).doc == Replace(s.doc, k, Restore(indices));
      ExpandKeepsValid(s.doc, n, k);
    }
    UniqueIds(Demerge(s).doc, n);
  }

  /** Expanding the Merged page at `k` shows exactly the same source indices and
      drops one Merged id. */
  lemma ExpandKeepsValid(doc: Document, n: nat, k: nat)
    requires Valid(doc, n)
    requires k < |doc| && doc[k].Merged?
    ensures Valid(Replace(doc, k, Restore(doc[k].sourceIndices)), n)
  {
    var r := Replace(doc, k, Restore(doc[k].sourceIndices));
    ExpandFlat(doc, k);
    ExpandMergedIds(doc, k);
    ExpandMergedPages(doc, k);
    ValidFrom(doc, r, n);
  }

  /** Expanding a Merged page in place shows the same source indices in the same order. */
  lemma ExpandFlat(doc: Document, k: nat)
    requires k < |doc| && doc[k].Merged?
    ensures Flat(Replace(doc, k, Restore(doc[k].sourceIndices))) == Flat(doc)
  {
    var m := doc[k];
    var a := doc[..k];
    var b := doc[k + 1..];
    var restored := Restore(m.sourceIndices);
    SplitAt(doc, k);
    FlatAppend3(a, restored, b);
    FlatAppend3(a, [m], b);
    FlatSingle(m);
    RestoreFlat(m.sourceIndices);
  }

  /** Expanding a Merged page in place only removes a merged id. */
  lemma ExpandMergedIds(doc: Document, k: nat)
    requires k < |doc| && doc[k].Merged?
    ensures multiset(MergedIds(Replace(doc, k, Restore(doc[k].sourceIndices)))) <= multiset(MergedIds(doc))
  {
    var m := doc[k];
    var a := doc[..k];
    var b := doc[k + 1..];
    var restored := Restore(m.sourceIndices);
    var ia := MergedIds(a);
    var ib := MergedIds(b);
    SplitAt(doc, k);
    assert forall p | p in restored :: p.Original?;
    NoMergedIds(restored);
    MergedIdsAppend3(a, restored, b);
    assert ia + MergedIds(restored) == ia;
    assert MergedIds(a + restored + b) == ia + ib;
    MergedIdsAppend3(a, [m], b);
    MergedIdsSingle(m);
    assert MergedIds(a + [m] + b) == ia + [m.id] + ib;
    assert Replace(doc, k, restored) == a + restored + b;
    SubMultisetDrop(ia, m.id, ib);
  }

  /** Every Merged page left after the expansion was already in the document. */
  lemma ExpandMergedPages(doc: Document, k: nat)
    requires k < |doc| && doc[k].Merged?
    ensures forall p | p in Replace(doc, k, Restore(doc[k].sourceIndices)) && p.Merged? :: p in doc
  {
    var restored := Restore(doc[k].sourceIndices);
    var r := Replace(doc, k, restored);
    assert r == doc[..k] + restored + doc[k + 1..];
    forall p | p in r && p.Merged?
      ensures p in doc
    {
      assert p !in restored;
      if p in doc[..k] {
        assert p in doc;
      } else {
        assert p in doc[k + 1..];
      }
    }
  }

  /** A document whose source indices and Merged ids are sub-multisets of a valid
      document's, and whose Merged pages all come from it, is valid too. */
  lemma ValidFrom(doc: Document, r: Document, n: nat)
    requires Valid(doc, n)
    requires multiset(Flat(r)) <= multiset(Flat(doc))
    requires multiset(MergedIds(r)) <= multiset(MergedIds(doc))
    requires forall p | p in r && p.Merged? :: p in doc
    ensures Valid(r, n)
  {
    DistinctSubMultiset(Flat(r), Flat(doc));
    DistinctSubMultiset(MergedIds(r), MergedIds(doc));
    var fr := Flat(r);
    var fd := Flat(doc);
    assert forall i | i in fd :: i < n;
    forall i | i in fr
      ensures i < n
    {
      SubMultisetMember(fr, fd, i);
    }
    forall p | p in r && p.Merged?
      ensures 2 <= |p.sourceIndices| <= 4 && FreshShaped(p.id)
    {
      assert p in doc;
    }
  }

  /** Filtering keeps a sub-multiset of the Merged ids. */
  lemma {:induction false} PickMergedIds(doc: Document, sel: Selection, selected: bool)
    ensures multiset(MergedIds(Pick(doc, sel, selected))) <= multiset(MergedIds(doc))
    decreases |doc|
  {
    if |doc| > 0 {
      PickMergedIds(doc[1..], sel, selected);
      var h := if doc[0].Merged? then [doc[0].id] else [];
      var rest := Pick(doc[1..], sel, selected);
      assert MergedIds(doc) == h + MergedIds(doc[1..]);
      assert multiset(MergedIds(doc)) == multiset(h) + multiset(MergedIds(doc[1..]));
      if (doc[0].Id() in sel) == selected {
        assert Pick(doc, sel, selected) == [doc[0]] + rest;
        MergedIdsAppend([doc[0]], rest);
        MergedIdsSingle(doc[0]);
      } else {
        assert Pick(doc, sel, selected) == rest;
      }
    }
  }

  /** Every Merged id is the id of a page of the document. */
  lemma {:induction false} MergedIdsAreIds(doc: Document)
    ensures forall x | x in MergedIds(doc) :: x in IdsOf(doc)
    decreases |doc|
  {
    if |doc| > 0 {
      MergedIdsAreIds(doc[1..]);
      forall x | x in MergedIds(doc)
        ensures x in IdsOf(doc)
      {
        if doc[0].Merged? && x == doc[0].id {
          assert IdsOf(doc)[0] == x;
        } else {
          assert x in MergedIds(doc[1..]);
          var i :| 0 <= i < |doc[1..]| && IdsOf(doc[1..])[i] == x;
          assert IdsOf(doc)[i + 1] == x;
        }
      }
    }
  }

  /** With unique ids, the number of selected pages is the number of selected ids
      that name a page. */
  lemma {:induction false} PickCount(doc: Document, sel: Selection)
    requires Distinct(IdsOf(doc))
    ensures |Pick(doc, sel, true)| == |sel * IdSet(doc)|
    decreases |doc|
  {
    if |doc| > 0 {
      HeadIdUnique(doc);
      PickCount(doc[1..], sel);
      PickCountStep(doc, sel, IdSet(doc[1..]));
    }
  }

  lemma PickCountStep(doc: Document, sel: Selection, restIds: set<PageId>)
    requires |doc| > 0
    requires restIds == IdSet(doc[1..])
    requires IdSet(doc) == {doc[0].Id()} + restIds && doc[0].Id() !in restIds
    requires |Pick(doc[1..], sel, true)| == |sel * restIds|
    ensures |Pick(doc, sel, true)| == |sel * IdSet(doc)|
  {
    var p := doc[0];
    if p.Id() in sel {
      assert sel * IdSet(doc) == (sel * restIds) + {p.Id()};
      assert Pick(doc, sel, true) == [p] + Pick(doc[1..], sel, true);
    } else {
      assert sel * IdSet(doc) == sel * restIds;
      assert Pick(doc, sel, true) == Pick(doc[1..], sel, true);
    }
  }

  /** In a document with distinct ids, the first page's id is not among the others'. */
  lemma HeadIdUnique(doc: Document)
    requires Distinct(IdsOf(doc)) && |doc| > 0
    ensures IdSet(doc) == {doc[0].Id()} + IdSet(doc[1..])
    ensures doc[0].Id() !in IdSet(doc[1..])
    ensures Distinct(IdsOf(doc[1..]))
  {
    var p := doc[0];
    var rest := doc[1..];
    assert IdsOf(doc) == [p.Id()] + IdsOf(rest);
    DistinctCons(p.Id(), IdsOf(rest));
    IdSetCons(doc);
    forall q | q in rest
      ensures q.Id() != p.Id()
    {
      var i :| 0 <= i < |rest| && rest[i] == q;
      assert IdsOf(rest)[i] == q.Id();
    }
  }

  lemma IdSetCons(doc: Document)
    requires |doc| > 0
    ensures IdSet(doc) == {doc[0].Id()} + IdSet(doc[1..])
  {
    var rest := doc[1..];
    forall x | x in IdSet(doc)
      ensures x in {doc[0].Id()} + IdSet(rest)
    {
      var q :| q in doc && q.Id() == x;
      var i :| 0 <= i < |doc| && doc[i] == q;
      if i > 0 {
        assert rest[i - 1] == q;
      }
    }
    forall x | x in IdSet(rest)
      ensures x in IdSet(doc)
    {
      var q :| q in rest && q.Id() == x;
      assert q in doc;
    }
    assert doc[0] in doc;
  }

  lemma SelectedPageCount(doc: Document, sel: Selection)
    requires Distinct(IdsOf(doc))
    requires SelectionInDocument(doc, sel)
    ensures |Pick(doc, sel, true)| == |sel|
  {
    PickCount(doc, sel);
    forall id | id in sel
      ensures id in IdSet(doc)
    {
      var i :| 0 <= i < |doc| && IdsOf(doc)[i] == id;
      assert doc[i] in doc;
    }
    assert sel * IdSet(doc) == sel;
  }

  /** Inserting a new Merged page into a valid document keeps it valid when the new
      page's indices are in range and not shown elsewhere, and its id is new. */
  lemma InsertKeepsValid(u: Document, k: int, m: LogicalPage, n: nat)
    requires Valid(u, n)
    requires 0 <= k <= |u|
    requires m.Merged? && 2 <= |m.sourceIndices| <= 4 && FreshShaped(m.id)
    requires m.id !in MergedIds(u)
    requires Distinct(Flat(u) + m.sourceIndices)
    requires forall i | i in m.sourceIndices :: i < n
    ensures Valid(u[..k] + [m] + u[k..], n)
  {
    InsertIndices(u, k, m, n);
    InsertMergedIds(u, k, m);
    var r := u[..k] + [m] + u[k..];
    forall p | p in r && p.Merged?
      ensures 2 <= |p.sourceIndices| <= 4 && FreshShaped(p.id)
    {
      if p != m {
        assert p in u[..k] || p in u[k..];
        assert p in u;
      }
    }
  }

  lemma InsertIndices(u: Document, k: int, m: LogicalPage, n: nat)
    requires 0 <= k <= |u|
    requires forall i | i in Flat(u) :: i < n
    requires Distinct(Flat(u) + m.Indices())
    requires forall i | i in m.Indices() :: i < n
    ensures var r := u[..k] + [m] + u[k..];
            Distinct(Flat(r)) && forall i | i in Flat(r) :: i < n
  {
    var r := u[..k] + [m] + u[k..];
    var both := Flat(u) + m.Indices();
    InsertFlat(u, k, m);
    assert multiset(Flat(r)) == multiset(both);
    DistinctSubMultiset(Flat(r), both);
    forall i | i in Flat(r)
      ensures i < n
    {
      SubMultisetMember(Flat(r), both, i);
    }
  }

  lemma InsertMergedIds(u: Document, k: int, m: LogicalPage)
    requires 0 <= k <= |u|
    requires m.Merged? && m.id !in MergedIds(u)
    requires Distinct(MergedIds(u))
    ensures Distinct(MergedIds(u[..k] + [m] + u[k..]))
  {
    InsertedMergedIds(u, k, m);
    DistinctInsert(MergedIds(u[..k]), m.id, MergedIds(u[k..]));
  }

  lemma InsertedMergedIds(u: Document, k: int, m: LogicalPage)
    requires 0 <= k <= |u| && m.Merged?
    ensures MergedIds(u[..k] + [m] + u[k..]) == MergedIds(u[..k]) + [m.id] + MergedIds(u[k..])
    ensures MergedIds(u) == MergedIds(u[..k]) + MergedIds(u[k..])
  {
    var a := u[..k];
    var b := u[k..];
    assert u == a + b;
    MergedIdsAppend(a + [m], b);
    MergedIdsAppend(a, [m]);
    MergedIdsAppend(a, b);
    assert [m][1..] == [];
    assert MergedIds([m]) == [m.id];
  }

  /** What both merge constructions need: the unselected pages are valid, the new
      page's indices are new and in range, and its id is new. */
  lemma MergeIngredients(s: Session, n: nat, config: MergeConfig, newId: PageId)
    requires SessionOk(s, n)
    requires 2 <= |s.selected| <= 4
    requires AllOriginal(Pick(s.doc, s.selected, true))
    requires FreshShaped(newId) && newId !in IdsOf(s.doc)
    ensures var u := Pick(s.doc, s.selected, false);
            var m := NewMergedPage(s.doc, s.selected, config, newId);
            && FirstSelected(s.doc, s.selected) >= 0
            && Valid(u, n)
            && 2 <= |m.sourceIndices| <= 4
            && m.id !in MergedIds(u)
            && Distinct(Flat(u) + m.sourceIndices)
            && (forall i | i in m.sourceIndices :: i < n)
  {
    var doc := s.doc;
    var sel := s.selected;
    var u := Pick(doc, sel, false);
    var chosen := Pick(doc, sel, true);
    UniqueIds(doc, n);
    SelectedPageCount(doc, sel);
    OriginalsFlat(chosen);
    SomePageSelected(doc, sel);
    PickPartition(doc, sel);
    PickMembers(doc, sel, false);
    PickMergedIds(doc, sel, false);
    ValidFrom(doc, u, n);
    MergedIndicesFromDocument(doc, sel, n);
    UnselectedIdsOf(doc, sel, newId);
  }

  /** A non-empty selection of pages names a page of the document. */
  lemma SomePageSelected(doc: Document, sel: Selection)
    requires |Pick(doc, sel, true)| > 0
    ensures FirstSelected(doc, sel) >= 0
  {
    var chosen := Pick(doc, sel, true);
    PickMembers(doc, sel, true);
    assert chosen[0] in doc && chosen[0].Id() in sel;
    var i :| 0 <= i < |doc| && doc[i] == chosen[0];
    assert doc[i].Id() in sel;
  }

  /** The selected pages' indices, together with the unselected pages' ones, are
      exactly the document's: new to the rest of the document and in range. */
  lemma MergedIndicesFromDocument(doc: Document, sel: Selection, n: nat)
    requires Valid(doc, n)
    ensures var both := Flat(Pick(doc, sel, false)) + Flat(Pick(doc, sel, true));
            Distinct(both) && forall i | i in Flat(Pick(doc, sel, true)) :: i < n
  {
    var chosen := Flat(Pick(doc, sel, true));
    var both := Flat(Pick(doc, sel, false)) + chosen;
    PickPartition(doc, sel);
    assert multiset(both) == multiset(Flat(doc));
    DistinctSubMultiset(both, Flat(doc));
    var fd := Flat(doc);
    assert forall i | i in fd :: i < n;
    forall i | i in chosen
      ensures i < n
    {
      assert i in both;
      SubMultisetMember(both, fd, i);
    }
  }

  /** An id that no page carries is not carried by any unselected page either, in
      particular by no Merged one. */
  lemma UnselectedIdsOf(doc: Document, sel: Selection, id: PageId)
    requires id !in IdsOf(doc)
    ensures id !in MergedIds(Pick(doc, sel, false))
  {
    var u := Pick(doc, sel, false);
    PickMembers(doc, sel, false);
    MergedIdsAreIds(u);
    forall j | 0 <= j < |u|
      ensures IdsOf(u)[j] != id
    {
      assert u[j] in doc;
      var i :| 0 <= i < |doc| && doc[i] == u[j];
      assert IdsOf(doc)[i] == u[j].Id();
    }
    assert id !in IdsOf(u);
  }

  /** App's merge keeps the invariant, given a new id that is not numeric and not in
      use, and the 2-to-4 selection the dialog was opened with. */
  lemma ConfirmMergePreserves(s: Session, n: nat, config: MergeConfig, newId: PageId)
    requires SessionOk(s, n)
    requires 2 <= |s.selected| <= 4
    requires FreshShaped(newId) && newId !in IdsOf(s.doc)
    ensures SessionOk(ConfirmMerge(s, config, newId), n)
    ensures Distinct(IdsOf(ConfirmMerge(s, config, newId).doc))
  {
    if AllOriginal(Pick(s.doc, s.selected, true)) && s.alert.None? {
      ConfirmMergeValid(s, n, config, newId);
    }
    UniqueIds(ConfirmMerge(s, config, newId).doc, n);
  }

  /** The merging branch: the new page goes among the unselected ones at the first
      selected position. */
  lemma ConfirmMergeValid(s: Session, n: nat, config: MergeConfig, newId: PageId)
    requires SessionOk(s, n)
    requires 2 <= |s.selected| <= 4
    requires FreshShaped(newId) && newId !in IdsOf(s.doc)
    requires AllOriginal(Pick(s.doc, s.selected, true)) && s.alert.None?
    ensures Valid(ConfirmMerge(s, config, newId).doc, n)
  {
    MergeIngredients(s, n, config, newId);
    var k := FirstSelected(s.doc, s.selected);
    var u := Pick(s.doc, s.selected, false);
    var m := NewMergedPage(s.doc, s.selected, config, newId);
    ConfirmMergeDocument(s, config, newId);
    SpliceConstructionsAgree(s.doc, s.selected, m);
    UnselectedAroundFirst(s.doc, s.selected, k);
    InsertKeepsValid(u, k, m, n);
  }

  /** The DOM version's merge keeps the invariant once its dialog guard has passed. */
  lemma JsConfirmMergePreserves(s: Session, n: nat, config: MergeConfig, newId: PageId)
    requires SessionOk(s, n)
    requires CanMergeHeader(s.doc, s.selected)
    requires FreshShaped(newId) && newId !in IdsOf(s.doc)
    ensures SessionOk(JsConfirmMerge(s, config, newId), n)
    ensures Distinct(IdsOf(JsConfirmMerge(s, config, newId).doc))
  {
    MergeIngredients(s, n, config, newId);
    var k := FirstSelected(s.doc, s.selected);
    var u := Pick(s.doc, s.selected, false);
    var m := NewMergedPage(s.doc, s.selected, config, newId);
    UnselectedAroundFirst(s.doc, s.selected, k);
    assert JsConfirmMerge(s, config, newId).doc == u[..k] + [m] + u[k..];
    InsertKeepsValid(u, k, m, n);
    UniqueIds(JsConfirmMerge(s, config, newId).doc, n);
  }

  /** Opening the dialog never touches the document or the selection. */
  lemma OpenMergePreserves(s: Session, n: nat)
    requires SessionOk(s, n)
    ensures SessionOk(OpenMerge(s), n) && SessionOk(JsOpenMerge(s), n)
  {
  }

  /** With the invariant, the viewer's Delete button always removes at least one page. */
  lemma DeleteShrinks(s: Session, n: nat)
    requires SessionOk(s, n)
    requires CanDelete(s.selected)
    ensures |DeleteSelected(s).doc| < |s.doc|
  {
    UniqueIds(s.doc, n);
    SelectedPageCount(s.doc, s.selected);
    PickPartition(s.doc, s.selected);
  }
}
