/** The array manipulations the editing handlers are built from: filtering by
    selection, `findIndex`, toggling a selection, restoring Original pages from a
    Merged one, and the two ways the source splices a new Merged page in. */
module PageOps {
  import opened Prelude
  import opened Numerals
  import opened Pages

  /** The ids of the selected pages (a JavaScript `Set<string>`). */
  type Selection = set<PageId>

  /** `doc.filter(p => selectedIds.has(p.id) === selected)`: the selected pages when
      `selected` holds, the unselected ones otherwise, in document order. */
  function Pick(doc: Document, sel: Selection, selected: bool): (r: Document)
    ensures |r| <= |doc|
  {
    if |doc| == 0 then []
    else (if (doc[0].Id() in sel) == selected then [doc[0]] else []) + Pick(doc[1..], sel, selected)
  }

  /** A page is picked exactly when it is in the document and its selection status
      is the requested one. */
  lemma {:induction false} PickMembers(doc: Document, sel: Selection, selected: bool)
    ensures forall p | p in Pick(doc, sel, selected) :: p in doc && (p.Id() in sel) == selected
    ensures forall p | p in doc && (p.Id() in sel) == selected :: p in Pick(doc, sel, selected)
    decreases |doc|
  {
    if |doc| > 0 {
      PickMembers(doc[1..], sel, selected);
      assert doc == [doc[0]] + doc[1..];
    }
  }

  lemma {:induction false} PickAppend(a: Document, b: Document, sel: Selection, selected: bool)
    ensures Pick(a + b, sel, selected) == Pick(a, sel, selected) + Pick(b, sel, selected)
    decreases |a|
  {
    if |a| > 0 {
      assert (a + b)[1..] == a[1..] + b;
      PickAppend(a[1..], b, sel, selected);
    } else {
      assert a + b == b;
    }
  }

  lemma PickAppend3(a: Document, c: Document, b: Document, sel: Selection, selected: bool)
    ensures Pick(a + c + b, sel, selected) == Pick(a, sel, selected) + Pick(c, sel, selected) + Pick(b, sel, selected)
  {
    PickAppend(a + c, b, sel, selected);
    PickAppend(a, c, sel, selected);
  }

  /** Filtering keeps a segment whole when every page in it passes, and empties it
      when none does. */
  lemma {:induction false} PickAll(doc: Document, sel: Selection, selected: bool)
    requires forall i | 0 <= i < |doc| :: (doc[i].Id() in sel) == selected
    ensures Pick(doc, sel, selected) == doc
    ensures Pick(doc, sel, !selected) == []
    decreases |doc|
  {
    if |doc| > 0 {
      PickAll(doc[1..], sel, selected);
      assert doc == [doc[0]] + doc[1..];
    }
  }

  /** The selected and the unselected pages together are the whole document, and
      together they carry exactly the document's source indices. */
  lemma PickPartition(doc: Document, sel: Selection)
    ensures |Pick(doc, sel, true)| + |Pick(doc, sel, false)| == |doc|
    ensures multiset(Pick(doc, sel, true)) + multiset(Pick(doc, sel, false)) == multiset(doc)
    ensures multiset(Flat(Pick(doc, sel, true))) + multiset(Flat(Pick(doc, sel, false)))
            == multiset(Flat(doc))
  {
    PickMultiset(doc, sel);
    PickFlat(doc, sel);
  }

  lemma {:induction false} PickMultiset(doc: Document, sel: Selection)
    ensures multiset(Pick(doc, sel, true)) + multiset(Pick(doc, sel, false)) == multiset(doc)
    decreases |doc|
  {
    if |doc| > 0 {
      var x := doc[0];
      var rest := doc[1..];
      PickMultiset(rest, sel);
      assert doc == [x] + rest;
      var t := Pick(rest, sel, true);
      var f := Pick(rest, sel, false);
      if x.Id() in sel {
        assert Pick(doc, sel, true) == [x] + t;
        assert Pick(doc, sel, false) == f;
      } else {
        assert Pick(doc, sel, true) == t;
        assert Pick(doc, sel, false) == [x] + f;
      }
      assert multiset(doc) == multiset{x} + multiset(rest);
    }
  }

  lemma {:induction false} PickFlat(doc: Document, sel: Selection)
    ensures multiset(Flat(Pick(doc, sel, true))) + multiset(Flat(Pick(doc, sel, false)))
            == multiset(Flat(doc))
    decreases |doc|
  {
    if |doc| > 0 {
      PickFlat(doc[1..], sel);
      var head := [doc[0]];
      var s := Pick(doc[1..], sel, true);
      var u := Pick(doc[1..], sel, false);
      assert Flat(head) == doc[0].Indices();
      assert Flat(doc) == doc[0].Indices() + Flat(doc[1..]);
      if doc[0].Id() in sel {
        assert Pick(doc, sel, true) == head + s;
        assert Pick(doc, sel, false) == u;
        FlatAppend(head, s);
      } else {
        assert Pick(doc, sel, true) == s;
        assert Pick(doc, sel, false) == head + u;
        FlatAppend(head, u);
      }
    }
  }

  /** `doc.findIndex(p => sel.has(p.id))`: -1 when no page is selected. */
  function FirstSelected(doc: Document, sel: Selection): (k: int)
    ensures -1 <= k < |doc|
    ensures k == -1 <==> forall i | 0 <= i < |doc| :: doc[i].Id() !in sel
    ensures k >= 0 ==> doc[k].Id() in sel && forall i | 0 <= i < k :: doc[i].Id() !in sel
  {
    if |doc| == 0 then -1
    else if doc[0].Id() in sel then 0
    else
      var k := FirstSelected(doc[1..], sel);
      if k == -1 then -1 else k + 1
  }

  /** The selection after clicking a thumbnail: the clicked id flips membership and
      no other id changes. */
  function Toggle(sel: Selection, id: PageId): (r: Selection)
    ensures (id in r) != (id in sel)
    ensures forall x | x != id :: x in r <==> x in sel
  {
    if id in sel then sel - {id} else sel + {id}
  }

  /** Clicking the same thumbnail twice restores the selection. */
  lemma ToggleTwice(sel: Selection, id: PageId)
    ensures Toggle(Toggle(sel, id), id) == sel
  {
  }

  /** The single element of a one-element set (`selectedIds.values().next().value`). */
  function Single(sel: Selection): (id: PageId)
    requires |sel| == 1
    ensures sel == {id}
  {
    var id :| id in sel;
    assert |sel - {id}| == 0;
    id
  }

  /** The Original pages a demerge restores, one per stored source index, in order. */
  function Restore(indices: seq<nat>): (r: Document)
    ensures |r| == |indices|
    ensures forall j | 0 <= j < |r| :: r[j] == Original(indices[j]) && r[j].Id() == Decimal(indices[j])
  {
    seq(|indices|, j requires 0 <= j < |indices| => Original(indices[j]))
  }

  /** Restoring shows exactly the stored source indices, and restoring the indices of
      a run of Original pages gives that run back. */
  lemma {:induction false} RestoreFlat(indices: seq<nat>)
    ensures Flat(Restore(indices)) == indices
    decreases |indices|
  {
    if |indices| > 0 {
      RestoreFlat(indices[1..]);
      assert Restore(indices)[1..] == Restore(indices[1..]);
    }
  }

  lemma {:induction false} RestoreOriginals(pages: Document)
    requires forall p | p in pages :: p.Original?
    ensures Restore(Flat(pages)) == pages
    decreases |pages|
  {
    if |pages| > 0 {
      assert pages[0] in pages;
      assert forall p | p in pages[1..] :: p in pages;
      RestoreOriginals(pages[1..]);
      assert Flat(pages) == [pages[0].sourceIndex] + Flat(pages[1..]);
      assert Restore(Flat(pages)) == [pages[0]] + Restore(Flat(pages[1..]));
    }
  }

  /** `prev.slice(0, k)`, then `pages`, then `prev.slice(k + 1)` (App.tsx:165-167),
      i.e. `prev.splice(k, 1, ...pages)` (index.js:258). */
  function Replace(doc: Document, k: nat, pages: Document): (r: Document)
    requires k < |doc|
    ensures |r| == |doc| - 1 + |pages|
    ensures r[..k] == doc[..k]
    ensures r[k..k + |pages|] == pages
    ensures r[k + |pages|..] == doc[k + 1..]
  {
    doc[..k] + pages + doc[k + 1..]
  }

  /** The forEach construction of App.tsx:323-329: unselected pages are copied, the
      page at `first` is replaced by `merged`, other selected pages are dropped.
      `first` counts down as the walk advances, standing for `index === firstSelectedIndex`. */
  function AppSplice(doc: Document, sel: Selection, merged: LogicalPage, first: int): Document
    decreases |doc|
  {
    if |doc| == 0 then []
    else
      var head := if doc[0].Id() !in sel then [doc[0]] else if first == 0 then [merged] else [];
      head + AppSplice(doc[1..], sel, merged, first - 1)
  }

  /** `arr.splice(start, 0, x)` with JavaScript's reading of `start`: a negative start
      counts from the end (clamped at 0), a start past the end appends. */
  function JsInsert(s: Document, start: int, x: LogicalPage): (r: Document)
    ensures |r| == |s| + 1
    ensures var at := if start < 0 then (if |s| + start < 0 then 0 else |s| + start)
                      else (if start > |s| then |s| else start);
            r[..at] == s[..at] && r[at] == x && r[at + 1..] == s[at..]
  {
    var at := if start < 0 then (if |s| + start < 0 then 0 else |s| + start)
              else (if start > |s| then |s| else start);
    s[..at] + [x] + s[at..]
  }

  /** What the forEach construction produces when `first` names a selected page: the
      unselected pages before it, the merged page, then the unselected pages after it. */
  lemma AppSpliceAtSelected(doc: Document, sel: Selection, merged: LogicalPage, first: int)
    requires 0 <= first < |doc| && doc[first].Id() in sel
    ensures AppSplice(doc, sel, merged, first)
            == Pick(doc[..first], sel, false) + [merged] + Pick(doc[first + 1..], sel, false)
  {
    var a := doc[..first];
    var b := doc[first + 1..];
    assert doc == a + [doc[first]] + b;
    AppSpliceAppend(a + [doc[first]], b, sel, merged, first);
    AppSpliceAppend(a, [doc[first]], sel, merged, first);
    AppSpliceElsewhere(a, sel, merged, first);
    AppSpliceElsewhere(b, sel, merged, -1);
    assert AppSplice([doc[first]], sel, merged, 0) == [merged];
  }

  /** The forEach walk over a concatenation is the walk over each part, with the
      merged page's slot shifted by the length of the first part. */
  lemma {:induction false} AppSpliceAppend(a: Document, b: Document, sel: Selection, merged: LogicalPage, first: int)
    ensures AppSplice(a + b, sel, merged, first)
            == AppSplice(a, sel, merged, first) + AppSplice(b, sel, merged, first - |a|)
    decreases |a|
  {
    if |a| == 0 {
      assert a + b == b;
    } else {
      assert (a + b)[1..] == a[1..] + b;
      AppSpliceAppend(a[1..], b, sel, merged, first - 1);
    }
  }

  lemma PickCons(x: LogicalPage, rest: Document, sel: Selection)
    ensures Pick([x] + rest, sel, false) == (if x.Id() !in sel then [x] else []) + Pick(rest, sel, false)
  {
    assert ([x] + rest)[1..] == rest;
  }

  /** Otherwise the walk never meets the merged page's slot and keeps only the
      unselected pages. */
  lemma {:induction false} AppSpliceElsewhere(doc: Document, sel: Selection, merged: LogicalPage, first: int)
    requires !(0 <= first < |doc| && doc[first].Id() in sel)
    ensures AppSplice(doc, sel, merged, first) == Pick(doc, sel, false)
    decreases |doc|
  {
    if |doc| > 0 {
      AppSpliceElsewhere(doc[1..], sel, merged, first - 1);
    }
  }

  /** The two constructions agree whenever some page is selected: every page before
      the first selected one is unselected, so filtering and then inserting at
      `firstSelectedIndex` (index.js:332-334) lands the merged page where the
      forEach walk of App.tsx:321-329 puts it. */
  lemma SpliceConstructionsAgree(doc: Document, sel: Selection, merged: LogicalPage)
    requires FirstSelected(doc, sel) >= 0
    ensures var k := FirstSelected(doc, sel);
      && JsInsert(Pick(doc, sel, false), k, merged) == AppSplice(doc, sel, merged, k)
      && AppSplice(doc, sel, merged, k) == doc[..k] + [merged] + Pick(doc[k..], sel, false)
  {
    var k := FirstSelected(doc, sel);
    AppSpliceAtSelected(doc, sel, merged, k);
    UnselectedAroundFirst(doc, sel, k);
    var u := Pick(doc, sel, false);
    assert u[..k] == doc[..k];
    assert u[k..] == Pick(doc[k + 1..], sel, false);
  }

  /** Around the first selected position `k`, the unselected pages are the whole
      prefix before `k` followed by the unselected pages after `k`. */
  lemma UnselectedAroundFirst(doc: Document, sel: Selection, k: int)
    requires k == FirstSelected(doc, sel) && k >= 0
    ensures Pick(doc[..k], sel, false) == doc[..k]
    ensures Pick(doc[k..], sel, false) == Pick(doc[k + 1..], sel, false)
    ensures Pick(doc, sel, false) == doc[..k] + Pick(doc[k + 1..], sel, false)
  {
    PickAll(doc[..k], sel, false);
    assert doc[k..] == [doc[k]] + doc[k + 1..];
    PickCons(doc[k], doc[k + 1..], sel);
    assert doc == doc[..k] + doc[k..];
    PickAppend(doc[..k], doc[k..], sel, false);
  }

  /** When no page of the document is selected the constructions part ways: the
      forEach walk never meets `firstSelectedIndex` (-1) and drops the merged page,
      while `splice(-1, 0, m)` inserts it before the last page. */
  lemma SpliceConstructionsDivergeWithoutSelectedPage(doc: Document, sel: Selection, merged: LogicalPage)
    requires |doc| > 0
    requires FirstSelected(doc, sel) == -1
    ensures AppSplice(doc, sel, merged, -1) == doc
    ensures JsInsert(Pick(doc, sel, false), -1, merged) == doc[..|doc| - 1] + [merged] + [doc[|doc| - 1]]
  {
    AppSpliceElsewhere(doc, sel, merged, -1);
    PickAll(doc, sel, false);
    assert doc[|doc| - 1..] == [doc[|doc| - 1]];
  }
}
