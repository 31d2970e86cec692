/** The ALPHABETIC ordering of source lists: unpinned before pinned, then by title,
    applied by a stable sort (the list sort of the JVM is stable). */
module AlphabeticSort {
  import opened SourceCatalog
  import opened Sequences
  import TitleOrder

  /** The comparison key `compareBy { it in pinned }.thenBy { it.title }`. */
  datatype Key = Key(pinned: bool, title: string)

  function KeyOf(s: Source, pinned: set<Source>): Key {
    Key(s in pinned, s.title)
  }

  /** Strict order on keys: false before true, then titles in their natural order. */
  predicate Before(a: Key, b: Key) {
    (!a.pinned && b.pinned) || (a.pinned == b.pinned && TitleOrder.Less(a.title, b.title))
  }

  lemma BeforeIrreflexive(a: Key)
    ensures !Before(a, a)
  {
    TitleOrder.LessIrreflexive(a.title);
  }

  lemma BeforeTotal(a: Key, b: Key)
    ensures a == b || Before(a, b) || Before(b, a)
  {
    TitleOrder.LessTotal(a.title, b.title);
  }

  lemma BeforeAsymmetric(a: Key, b: Key)
    requires Before(a, b)
    ensures !Before(b, a)
  {
    if a.pinned == b.pinned {
      TitleOrder.LessAsymmetric(a.title, b.title);
    }
  }

  lemma BeforeTransitive(a: Key, b: Key, c: Key)
    requires Before(a, b) && Before(b, c)
    ensures Before(a, c)
  {
    if a.pinned == b.pinned && b.pinned == c.pinned {
      TitleOrder.LessTransitive(a.title, b.title, c.title);
    }
  }

  /** "Not after" is transitive. */
  lemma NotBeforeTransitive(a: Key, b: Key, c: Key)
    requires !Before(b, a) && !Before(c, b)
    ensures !Before(c, a)
  {
    BeforeTotal(a, b);
    if Before(c, a) && a != b {
      BeforeTransitive(c, a, b);
    }
  }

  /** No element is strictly before an element that precedes it. */
  predicate Sorted(xs: seq<Source>, pinned: set<Source>) {
    forall i, j | 0 <= i < j < |xs| :: !Before(KeyOf(xs[j], pinned), KeyOf(xs[i], pinned))
  }

  /** The elements of `xs` whose key is `k`, in their order in `xs`. */
  function WithKey(xs: seq<Source>, pinned: set<Source>, k: Key): seq<Source> {
    if |xs| == 0 then []
    else (if KeyOf(xs[0], pinned) == k then [xs[0]] else []) + WithKey(xs[1..], pinned, k)
  }

  /** Inserts `x` in front of the first element that is not strictly before it. */
  function Insert(x: Source, xs: seq<Source>, pinned: set<Source>): (r: seq<Source>)
    ensures multiset(r) == multiset(xs) + multiset{x}
  {
    if |xs| == 0 then [x]
    else if !Before(KeyOf(xs[0], pinned), KeyOf(x, pinned)) then [x] + xs
    else
      assert xs == [xs[0]] + xs[1..];
      [xs[0]] + Insert(x, xs[1..], pinned)
  }

  /** Insertion sort, each element inserted into the sorted rest of the list. */
  function Sort(xs: seq<Source>, pinned: set<Source>): (r: seq<Source>)
    ensures multiset(r) == multiset(xs)
  {
    if |xs| == 0 then []
    else
      assert xs == [xs[0]] + xs[1..];
      Insert(xs[0], Sort(xs[1..], pinned), pinned)
  }

  lemma SortedTail(xs: seq<Source>, pinned: set<Source>)
    requires |xs| > 0 && Sorted(xs, pinned)
    ensures Sorted(xs[1..], pinned)
    ensures forall y | y in xs[1..] :: !Before(KeyOf(y, pinned), KeyOf(xs[0], pinned))
  {
    forall i, j | 0 <= i < j < |xs| - 1
      ensures !Before(KeyOf(xs[1..][j], pinned), KeyOf(xs[1..][i], pinned))
    {
      assert xs[1..][i] == xs[i + 1] && xs[1..][j] == xs[j + 1];
    }
    forall y | y in xs[1..]
      ensures !Before(KeyOf(y, pinned), KeyOf(xs[0], pinned))
    {
      var j :| 0 <= j < |xs[1..]| && xs[1..][j] == y;
      assert y == xs[j + 1];
    }
  }

  /** A list whose head is not after any later element, and whose tail is sorted, is sorted. */
  lemma SortedCons(x: Source, xs: seq<Source>, pinned: set<Source>)
    requires Sorted(xs, pinned)
    requires forall y | y in xs :: !Before(KeyOf(y, pinned), KeyOf(x, pinned))
    ensures Sorted([x] + xs, pinned)
  {
    var r := [x] + xs;
    forall i, j | 0 <= i < j < |r|
      ensures !Before(KeyOf(r[j], pinned), KeyOf(r[i], pinned))
    {
      assert r[j] == xs[j - 1];
      if i > 0 {
        assert r[i] == xs[i - 1];
      }
    }
  }

  lemma {:induction false} InsertSorted(x: Source, xs: seq<Source>, pinned: set<Source>)
    requires Sorted(xs, pinned)
    ensures Sorted(Insert(x, xs, pinned), pinned)
    decreases |xs|
  {
    if |xs| > 0 {
      var kx := KeyOf(x, pinned);
      var k0 := KeyOf(xs[0], pinned);
      SortedTail(xs, pinned);
      if !Before(k0, kx) {
        forall y | y in xs
          ensures !Before(KeyOf(y, pinned), kx)
        {
          if y != xs[0] {
            assert y in xs[1..];
            NotBeforeTransitive(kx, k0, KeyOf(y, pinned));
          }
        }
        SortedCons(x, xs, pinned);
      } else {
        var rest := Insert(x, xs[1..], pinned);
        InsertSorted(x, xs[1..], pinned);
        BeforeAsymmetric(k0, kx);
        forall y | y in rest
          ensures !Before(KeyOf(y, pinned), k0)
        {
          assert y in multiset(rest);
          if y != x {
            assert y in multiset(xs[1..]);
          }
        }
        SortedCons(xs[0], rest, pinned);
      }
    }
  }

  lemma {:induction false} InsertWithKey(x: Source, xs: seq<Source>, pinned: set<Source>, k: Key)
    ensures WithKey(Insert(x, xs, pinned), pinned, k)
         == (if KeyOf(x, pinned) == k then [x] else []) + WithKey(xs, pinned, k)
    decreases |xs|
  {
    var r := Insert(x, xs, pinned);
    if |xs| == 0 {
      assert r == [x];
      assert WithKey(r, pinned, k) == (if KeyOf(x, pinned) == k then [x] else []) + WithKey(r[1..], pinned, k);
      assert r[1..] == [];
    } else if !Before(KeyOf(xs[0], pinned), KeyOf(x, pinned)) {
      assert r == [x] + xs;
      assert r[1..] == xs;
    } else {
      BeforeIrreflexive(KeyOf(x, pinned));
      assert KeyOf(xs[0], pinned) != KeyOf(x, pinned);
      assert r == [xs[0]] + Insert(x, xs[1..], pinned);
      assert r[1..] == Insert(x, xs[1..], pinned);
      InsertWithKey(x, xs[1..], pinned, k);
      var head := if KeyOf(xs[0], pinned) == k then [xs[0]] else [];
      var mine := if KeyOf(x, pinned) == k then [x] else [];
      assert WithKey(r, pinned, k) == head + (mine + WithKey(xs[1..], pinned, k));
      assert head == [] || mine == [];
      assert WithKey(xs, pinned, k) == head + WithKey(xs[1..], pinned, k);
    }
  }

  /** The result of the sort is ordered by key. */
  lemma {:induction false} SortIsSorted(xs: seq<Source>, pinned: set<Source>)
    ensures Sorted(Sort(xs, pinned), pinned)
    decreases |xs|
  {
    if |xs| > 0 {
      SortIsSorted(xs[1..], pinned);
      InsertSorted(xs[0], Sort(xs[1..], pinned), pinned);
    }
  }

  /** The sort is stable: elements with equal keys keep their relative order. */
  lemma {:induction false} SortIsStable(xs: seq<Source>, pinned: set<Source>, k: Key)
    ensures WithKey(Sort(xs, pinned), pinned, k) == WithKey(xs, pinned, k)
    decreases |xs|
  {
    if |xs| > 0 {
      SortIsStable(xs[1..], pinned, k);
      InsertWithKey(xs[0], Sort(xs[1..], pinned), pinned, k);
    }
  }

  /** What the alphabetic sort promises as a whole: an ordered, stable permutation. */
  lemma SortIsStablePermutation(xs: seq<Source>, pinned: set<Source>)
    ensures Sorted(Sort(xs, pinned), pinned)
    ensures |Sort(xs, pinned)| == |xs|
    ensures forall s :: s in Sort(xs, pinned) <==> s in xs
    ensures forall k :: WithKey(Sort(xs, pinned), pinned, k) == WithKey(xs, pinned, k)
  {
    var r := Sort(xs, pinned);
    SortIsSorted(xs, pinned);
    forall k
      ensures WithKey(r, pinned, k) == WithKey(xs, pinned, k)
    {
      SortIsStable(xs, pinned, k);
    }
    assert |r| == |multiset(r)| == |multiset(xs)| == |xs|;
    forall s
      ensures s in r <==> s in xs
    {
      assert s in r <==> s in multiset(r);
      assert s in xs <==> s in multiset(xs);
    }
  }

  /** A subsequence of a sorted list is sorted. */
  lemma {:induction false} SortedSubseq(a: seq<Source>, b: seq<Source>, pinned: set<Source>)
    requires Subseq(a, b) && Sorted(b, pinned)
    ensures Sorted(a, pinned)
    decreases |b|
  {
    if |a| > 0 {
      SortedTail(b, pinned);
      if a[0] == b[0] && Subseq(a[1..], b[1..]) {
        SortedSubseq(a[1..], b[1..], pinned);
        SubseqMembers(a[1..], b[1..]);
        assert a == [a[0]] + a[1..];
        SortedCons(a[0], a[1..], pinned);
      } else {
        SortedSubseq(a, b[1..], pinned);
      }
    }
  }
}
