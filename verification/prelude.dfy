/** Small generic vocabulary shared by the page model, the layout engine and the
    export planner: an optional value and duplicate-freedom of a sequence. */
module Prelude {

  datatype Option<+T> = None | Some(value: T)

  /** No element occurs twice in `s`. Stated through the multiset of `s`, so that
      it transfers directly along permutations and sub-multisets. */
  predicate Distinct<T(==)>(s: seq<T>) {
    forall x | x in multiset(s) :: multiset(s)[x] == 1
  }

  /** Positional reading of `Distinct`: two different positions hold different values. */
  lemma DistinctPositions<T>(s: seq<T>, i: int, j: int)
    requires Distinct(s)
    requires 0 <= i < j < |s|
    ensures s[i] != s[j]
  {
    assert s == s[..j] + [s[j]] + s[j+1..];
    assert multiset(s) == multiset(s[..j]) + multiset{s[j]} + multiset(s[j+1..]);
    assert s[j] in multiset(s);
    assert multiset(s[..j])[s[j]] == 0;
    assert s[i] in s[..j];
  }

  /** A prefix element does not reappear in the tail, and the tail stays distinct. */
  lemma DistinctCons<T>(a: T, s: seq<T>)
    requires Distinct([a] + s)
    ensures a !in s
    ensures Distinct(s)
  {
    assert multiset([a] + s) == multiset{a} + multiset(s);
    forall x | x in multiset(s)
      ensures multiset(s)[x] == 1
    {
      assert x in multiset([a] + s);
    }
    assert a in multiset([a] + s);
    assert multiset(s)[a] == 0;
  }

  /** Distinctness depends only on the multiset of the sequence, and shrinking the
      multiset keeps it. */
  lemma DistinctSubMultiset<T>(small: seq<T>, big: seq<T>)
    requires Distinct(big)
    requires multiset(small) <= multiset(big)
    ensures Distinct(small)
  {
    forall x | x in multiset(small)
      ensures multiset(small)[x] == 1
    {
      assert x in multiset(big);
    }
  }

  /** Two distinct sequences with no common element concatenate to a distinct sequence. */
  lemma DistinctAppend<T>(a: seq<T>, b: seq<T>)
    requires Distinct(a) && Distinct(b)
    requires forall x | x in a :: x !in b
    ensures Distinct(a + b)
  {
    assert multiset(a + b) == multiset(a) + multiset(b);
    forall x | x in multiset(a + b)
      ensures multiset(a + b)[x] == 1
    {
      if x in a {
        assert x !in multiset(b);
        assert x in multiset(a);
      } else {
        assert x !in multiset(a);
        assert x in multiset(b);
      }
    }
  }

  /** Pairwise-different positions give a distinct sequence. */
  lemma {:induction false} DistinctFromPositions<T>(s: seq<T>)
    requires forall i, j | 0 <= i < j < |s| :: s[i] != s[j]
    ensures Distinct(s)
    decreases |s|
  {
    if |s| > 0 {
      DistinctFromPositions(s[1..]);
      assert s == [s[0]] + s[1..];
      assert multiset([s[0]]) == multiset{s[0]};
      forall x | x in [s[0]]
        ensures x !in s[1..]
      {
        forall k | 0 <= k < |s[1..]|
          ensures s[1..][k] != x
        {
          assert s[1..][k] == s[k + 1];
        }
      }
      DistinctAppend([s[0]], s[1..]);
    }
  }

  /** In a distinct sequence `a + [t] + b`, the element `t` is not in `a`. */
  lemma DistinctSplit<T>(a: seq<T>, t: T, b: seq<T>)
    requires Distinct(a + [t] + b)
    ensures t !in a && t !in b
  {
    var s := a + [t] + b;
    assert multiset(s) == multiset(a) + multiset{t} + multiset(b);
    assert t in multiset(s);
    assert multiset(a)[t] == 0;
    assert multiset(b)[t] == 0;
  }

  /** An element of a sequence whose multiset is contained in another's occurs there. */
  lemma SubMultisetMember<T>(small: seq<T>, big: seq<T>, x: T)
    requires multiset(small) <= multiset(big)
    requires x in small
    ensures x in big
  {
    assert x in multiset(small);
    assert x in multiset(big);
  }

  /** Inserting a new element anywhere into a distinct sequence keeps it distinct. */
  lemma DistinctInsert<T>(a: seq<T>, x: T, b: seq<T>)
    requires Distinct(a + b)
    requires x !in a + b
    ensures Distinct(a + [x] + b)
  {
    assert multiset(a + [x] + b) == multiset(a + b) + multiset{x};
    forall y | y in multiset(a + [x] + b)
      ensures multiset(a + [x] + b)[y] == 1
    {
      if y == x {
        assert x !in multiset(a + b);
      } else {
        assert y in multiset(a + b);
      }
    }
  }

  /** A sequence is its prefix, the element at `k`, and its suffix. */
  lemma SplitAt<T>(s: seq<T>, k: int)
    requires 0 <= k < |s|
    ensures s == s[..k] + [s[k]] + s[k + 1..]
  {
  }

  /** Dropping one element gives a sub-multiset. */
  lemma SubMultisetDrop<T>(a: seq<T>, x: T, b: seq<T>)
    ensures multiset(a + b) <= multiset(a + [x] + b)
  {
    assert multiset(a + [x] + b) == multiset(a + b) + multiset{x};
  }

  /** Inserting a run into a sequence adds its elements to the multiset. */
  lemma MultisetInsert<T>(a: seq<T>, c: seq<T>, b: seq<T>)
    ensures multiset(a + c + b) == multiset(a + b) + multiset(c)
  {
  }

  /** A sequence is its three slices at `a` and `b`. */
  lemma SplitThree<T>(s: seq<T>, a: int, b: int)
    requires 0 <= a <= b <= |s|
    ensures s == s[..a] + s[a..b] + s[b..]
  {
  }

  /** The element inserted after `a` sits at position `|a|`. */
  lemma InsertedAt<T>(a: seq<T>, x: T, b: seq<T>)
    ensures |a + [x] + b| == |a| + 1 + |b|
    ensures (a + [x] + b)[|a|] == x
  {
  }
}
