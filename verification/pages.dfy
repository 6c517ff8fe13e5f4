/** The page model's data: logical pages, documents and the document invariant.

    A document is the ordered sequence of logical pages the user edits. An Original
    page stands for one page of the source PDF; a Merged page is a composite of
    2 to 4 source pages drawn on a chosen paper size. The source's `imageUrl`
    fields are not carried: an Original page's image is always
    `originalPageImages[sourceIndex]`, and a Merged page's preview is a function of
    its other fields (see `Export.Preview`). */
module Pages {
  import opened Prelude
  import opened Numerals

  datatype PageSize = A4Portrait | A4Landscape | LetterPortrait | LetterLandscape

  datatype Background = White | Black

  datatype LogicalPage =
    | Original(sourceIndex: nat)
    | Merged(id: PageId, sourceIndices: seq<nat>, pageSize: PageSize,
             background: Background, invertColors: bool)
  {
    /** An Original page's id is its source index as a numeral; a Merged page keeps
        the fresh id it was created with. */
    function Id(): PageId {
      match this
      case Original(i) => Decimal(i)
      case Merged(id, _, _, _, _) => id
    }

    /** The source pages this logical page shows, in drawing order. */
    function Indices(): seq<nat> {
      match this
      case Original(i) => [i]
      case Merged(_, indices, _, _, _) => indices
    }
  }

  type Document = seq<LogicalPage>

  /** Every source index used by the document, in document order. */
  function Flat(doc: Document): seq<nat> {
    if |doc| == 0 then [] else doc[0].Indices() + Flat(doc[1..])
  }

  /** The page ids of the document, position by position. */
  function IdsOf(doc: Document): (ids: seq<PageId>)
    ensures |ids| == |doc|
    ensures forall i | 0 <= i < |doc| :: ids[i] == doc[i].Id()
  {
    seq(|doc|, i requires 0 <= i < |doc| => doc[i].Id())
  }

  /** The ids of the Merged pages, in document order. */
  function MergedIds(doc: Document): seq<PageId> {
    if |doc| == 0 then []
    else (if doc[0].Merged? then [doc[0].id] else []) + MergedIds(doc[1..])
  }

  lemma {:induction false} FlatAppend(a: Document, b: Document)
    ensures Flat(a + b) == Flat(a) + Flat(b)
    decreases |a|
  {
    if |a| > 0 {
      assert (a + b)[1..] == a[1..] + b;
      FlatAppend(a[1..], b);
    } else {
      assert a + b == b;
    }
  }

  lemma {:induction false} MergedIdsAppend(a: Document, b: Document)
    ensures MergedIds(a + b) == MergedIds(a) + MergedIds(b)
    decreases |a|
  {
    if |a| > 0 {
      assert (a + b)[1..] == a[1..] + b;
      MergedIdsAppend(a[1..], b);
    } else {
      assert a + b == b;
    }
  }

  lemma FlatAppend3(a: Document, c: Document, b: Document)
    ensures Flat(a + c + b) == Flat(a) + Flat(c) + Flat(b)
  {
    FlatAppend(a + c, b);
    FlatAppend(a, c);
  }

  lemma MergedIdsAppend3(a: Document, c: Document, b: Document)
    ensures MergedIds(a + c + b) == MergedIds(a) + MergedIds(c) + MergedIds(b)
  {
    MergedIdsAppend(a + c, b);
    MergedIdsAppend(a, c);
  }

  /** A one-page document shows that page's source indices. */
  lemma FlatSingle(m: LogicalPage)
    ensures Flat([m]) == m.Indices()
  {
    assert [m][1..] == [];
  }

  lemma MergedIdsSingle(m: LogicalPage)
    ensures MergedIds([m]) == if m.Merged? then [m.id] else []
  {
    assert [m][1..] == [];
  }

  /** Inserting a page between two runs shows its source indices between theirs. */
  lemma FlatInsert(a: Document, m: LogicalPage, b: Document)
    ensures Flat(a + [m] + b) == Flat(a) + m.Indices() + Flat(b)
  {
    FlatAppend3(a, [m], b);
    FlatSingle(m);
  }

  /** A page's source indices all occur in the document's flattened indices. */
  lemma {:induction false} FlatContains(doc: Document, k: int)
    requires 0 <= k < |doc|
    ensures forall x | x in doc[k].Indices() :: x in Flat(doc)
    decreases k
  {
    if k > 0 {
      FlatContains(doc[1..], k - 1);
    }
  }

  lemma {:induction false} MergedIdsContains(doc: Document, k: int)
    requires 0 <= k < |doc| && doc[k].Merged?
    ensures doc[k].id in MergedIds(doc)
    decreases k
  {
    if k > 0 {
      MergedIdsContains(doc[1..], k - 1);
    }
  }

  /** The document invariant the editing operations maintain.
      - every source index is a page of the source PDF;
      - no source index is shown twice, across all pages together;
      - a Merged page combines 2 to 4 source pages and has a fresh (non-numeral) id;
      - no two Merged pages share an id. */
  predicate Valid(doc: Document, n: nat) {
    && (forall i | i in Flat(doc) :: i < n)
    && Distinct(Flat(doc))
    && (forall p | p in doc && p.Merged? :: 2 <= |p.sourceIndices| <= 4 && FreshShaped(p.id))
    && Distinct(MergedIds(doc))
  }

  /** Uniqueness of source indices is what makes the ids of a valid document unique:
      Original ids are derived from source indices and Merged ids are fresh. */
  lemma UniqueIds(doc: Document, n: nat)
    requires Valid(doc, n)
    ensures Distinct(IdsOf(doc))
    ensures forall i, j | 0 <= i < j < |doc| :: doc[i].Id() != doc[j].Id()
  {
    forall i, j | 0 <= i < j < |doc|
      ensures doc[i].Id() != doc[j].Id()
    {
      PagesDiffer(doc, n, i, j);
    }
    DistinctFromPositions(IdsOf(doc));
  }

  lemma PagesDiffer(doc: Document, n: nat, i: int, j: int)
    requires Valid(doc, n)
    requires 0 <= i < j < |doc|
    ensures doc[i].Id() != doc[j].Id()
  {
    var front := doc[..j];
    var back := doc[j+1..];
    assert doc == front + [doc[j]] + back;
    assert doc[i] == front[i];
    FlatAppend(front + [doc[j]], back);
    FlatAppend(front, [doc[j]]);
    MergedIdsAppend(front + [doc[j]], back);
    MergedIdsAppend(front, [doc[j]]);
    assert doc[i] in doc && doc[j] in doc;
    match doc[j]
    case Original(t) =>
      assert Flat([doc[j]]) == [t];
      DistinctSplit(Flat(front), t, Flat(back));
      if doc[i].Original? {
        FlatContains(front, i);
        DecimalInjective(doc[i].sourceIndex, t);
      } else {
        FreshNeverDecimal(doc[i].id, t);
      }
    case Merged(id, _, _, _, _) =>
      assert MergedIds([doc[j]]) == [id];
      DistinctSplit(MergedIds(front), id, MergedIds(back));
      if doc[i].Merged? {
        MergedIdsContains(front, i);
      } else {
        FreshNeverDecimal(id, doc[i].sourceIndex);
      }
  }

  /** The document built at load time: one Original page per decoded source page,
      in page order (App.tsx:86-104, index.js:188-207). */
  function InitialDocument(n: nat): (doc: Document)
    ensures |doc| == n
    ensures forall i | 0 <= i < n :: doc[i] == Original(i) && doc[i].Id() == Decimal(i)
  {
    seq(n, i requires 0 <= i < n => Original(i))
  }

  lemma {:induction false} InitialFlat(n: nat)
    ensures Flat(InitialDocument(n)) == seq(n, i requires 0 <= i < n => i)
    decreases n
  {
    if n > 0 {
      InitialFlat(n - 1);
      assert InitialDocument(n) == InitialDocument(n - 1) + [Original(n - 1)];
      FlatAppend(InitialDocument(n - 1), [Original(n - 1)]);
    }
  }

  /** The freshly loaded document satisfies the invariant, and its ids are unique. */
  lemma InitialValid(n: nat)
    ensures Valid(InitialDocument(n), n)
    ensures Distinct(IdsOf(InitialDocument(n)))
  {
    var doc := InitialDocument(n);
    InitialFlat(n);
    DistinctFromPositions(Flat(doc));
    assert MergedIds(doc) == [] by {
      NoMergedIds(doc);
    }
    UniqueIds(doc, n);
  }

  lemma {:induction false} NoMergedIds(doc: Document)
    requires forall p | p in doc :: p.Original?
    ensures MergedIds(doc) == []
    decreases |doc|
  {
    if |doc| > 0 {
      assert doc[0] in doc;
      assert forall p | p in doc[1..] :: p in doc;
      NoMergedIds(doc[1..]);
    }
  }
}
