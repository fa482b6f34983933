/** Stable sorting by a comparison function, as `slice::sort_by` does: each
    element is put after every earlier element that does not compare greater
    than it. For a comparison that is a total order on the elements the result
    is the sorted permutation; for one that is not (the iterator's comparison
    calls every pair it cannot compare `Equal`) this insertion order is the one
    modelled. */
module Sorting {
  import opened Common

  /** Insert `x`, which comes after all of `s`, behind the last element of `s`
      that is not greater than it. */
  function Insert<T>(cmp: (T, T) -> Ordering, x: T, s: seq<T>): (r: seq<T>)
    ensures |r| == |s| + 1
  {
    if s == [] then [x]
    else if cmp(s[|s| - 1], x) == Greater then Insert(cmp, x, s[..|s| - 1]) + [s[|s| - 1]]
    else s + [x]
  }

  /** `sort_by(cmp)`. */
  function Sort<T>(cmp: (T, T) -> Ordering, s: seq<T>): (r: seq<T>)
    ensures |r| == |s|
  {
    if s == [] then [] else Insert(cmp, s[|s| - 1], Sort(cmp, s[..|s| - 1]))
  }

  /** No element compares greater than one after it. */
  predicate Sorted<T>(cmp: (T, T) -> Ordering, s: seq<T>)
  {
    forall i, j :: 0 <= i < j < |s| ==> cmp(s[i], s[j]) != Greater
  }

  /** On `dom`, "not greater" is total and transitive. */
  predicate TotalOn<T(!new)>(cmp: (T, T) -> Ordering, dom: set<T>)
  {
    && (forall a, b :: a in dom && b in dom ==> cmp(a, b) != Greater || cmp(b, a) != Greater)
    && (forall a, b, c :: a in dom && b in dom && c in dom && cmp(a, b) != Greater && cmp(b, c) != Greater ==>
          cmp(a, c) != Greater)
  }

  lemma {:induction false} InsertPermutes<T>(cmp: (T, T) -> Ordering, x: T, s: seq<T>)
    ensures multiset(Insert(cmp, x, s)) == multiset(s) + multiset{x}
  {
    if s != [] && cmp(s[|s| - 1], x) == Greater {
      var n := |s| - 1;
      InsertPermutes(cmp, x, s[..n]);
      assert s == s[..n] + [s[n]];
    }
  }

  /** Sorting only reorders. */
  lemma {:induction false} SortPermutes<T>(cmp: (T, T) -> Ordering, s: seq<T>)
    ensures multiset(Sort(cmp, s)) == multiset(s)
  {
    if s != [] {
      var n := |s| - 1;
      SortPermutes(cmp, s[..n]);
      InsertPermutes(cmp, s[n], Sort(cmp, s[..n]));
      assert s == s[..n] + [s[n]];
    }
  }

  /** Appending an element no earlier element exceeds keeps a sequence sorted. */
  lemma SortedSnoc<T>(cmp: (T, T) -> Ordering, s: seq<T>, y: T)
    requires Sorted(cmp, s)
    requires forall i :: 0 <= i < |s| ==> cmp(s[i], y) != Greater
    ensures Sorted(cmp, s + [y])
  {
    var r := s + [y];
    forall i, j | 0 <= i < j < |r| ensures cmp(r[i], r[j]) != Greater {
      assert r[i] == s[i];
      if j < |s| { assert r[j] == s[j]; }
    }
  }

  /** Every element of an insertion is the inserted one or one of `s`. */
  lemma InsertElement<T>(cmp: (T, T) -> Ordering, x: T, s: seq<T>, i: int)
    requires 0 <= i < |Insert(cmp, x, s)|
    ensures Insert(cmp, x, s)[i] == x || Insert(cmp, x, s)[i] in s
  {
    var r := Insert(cmp, x, s);
    InsertPermutes(cmp, x, s);
    assert r[i] in multiset(r);
  }

  lemma {:induction false} InsertSorted<T(!new)>(cmp: (T, T) -> Ordering, x: T, s: seq<T>, dom: set<T>)
    requires TotalOn(cmp, dom) && x in dom && forall i :: 0 <= i < |s| ==> s[i] in dom
    requires Sorted(cmp, s)
    ensures Sorted(cmp, Insert(cmp, x, s))
  {
    if s != [] {
      var n := |s| - 1;
      var last, init := s[n], s[..n];
      assert s == init + [last];
      if cmp(last, x) == Greater {
        assert Sorted(cmp, init);
        InsertSorted(cmp, x, init, dom);
        var r := Insert(cmp, x, init);
        forall i | 0 <= i < |r| ensures cmp(r[i], last) != Greater {
          InsertElement(cmp, x, init, i);
          if r[i] != x {
            var k :| 0 <= k < |init| && init[k] == r[i];
            assert s[k] == r[i];
          }
        }
        SortedSnoc(cmp, r, last);
        assert Insert(cmp, x, s) == r + [last];
      } else {
        forall i | 0 <= i < n + 1 ensures cmp(s[i], x) != Greater {
          if i < n {
            assert cmp(s[i], last) != Greater;
          }
        }
        SortedSnoc(cmp, s, x);
      }
    }
  }

  /** Sorting by a comparison that is a total order on the elements sorts. */
  lemma {:induction false} SortSorts<T(!new)>(cmp: (T, T) -> Ordering, s: seq<T>, dom: set<T>)
    requires TotalOn(cmp, dom) && forall i :: 0 <= i < |s| ==> s[i] in dom
    ensures Sorted(cmp, Sort(cmp, s))
  {
    if s != [] {
      var n := |s| - 1;
      SortSorts(cmp, s[..n], dom);
      var r := Sort(cmp, s[..n]);
      SortPermutes(cmp, s[..n]);
      forall i | 0 <= i < |r| ensures r[i] in dom {
        assert r[i] in multiset(s[..n]);
      }
      InsertSorted(cmp, s[n], r, dom);
    }
  }
}
