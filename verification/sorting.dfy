/**
 * The builder's sort of objects by one centroid coordinate, compared with
 * the float `<`. An insertion sort stands in for the library sort: it yields
 * a permutation ordered by the key whenever no key is NaN.
 */
module Sorting {
  import opened Floats

  /** Places `x` after every element whose key is not above `x`'s key. */
  function Insert<T>(key: T -> Ext, x: T, s: seq<T>): (r: seq<T>)
    ensures |r| == |s| + 1
    ensures multiset(r) == multiset(s) + multiset{x}
  {
    if |s| == 0 then [x]
    else if key(x).Lt(key(s[0])) then [x] + s
    else
      assert s == [s[0]] + s[1..];
      [s[0]] + Insert(key, x, s[1..])
  }

  /** Sorts by inserting the elements one by one into the sorted prefix. */
  function Sort<T>(key: T -> Ext, s: seq<T>): (r: seq<T>)
    ensures |r| == |s|
    ensures multiset(r) == multiset(s)
  {
    if |s| == 0 then []
    else
      assert s == s[..|s| - 1] + [s[|s| - 1]];
      Insert(key, s[|s| - 1], Sort(key, s[..|s| - 1]))
  }

  predicate SortedBy<T>(key: T -> Ext, s: seq<T>)
  {
    forall i, j | 0 <= i < j < |s| :: key(s[i]).Le(key(s[j]))
  }

  /** No key is NaN, so the float `<` orders the keys totally. */
  predicate NumericKeys<T>(key: T -> Ext, s: seq<T>)
  {
    forall i | 0 <= i < |s| :: key(s[i]).IsNumber()
  }

  /** Every element of a sequence has a position in it. */
  lemma InMultisetHasIndex<T>(e: T, s: seq<T>)
    requires e in multiset(s)
    ensures exists k :: 0 <= k < |s| && s[k] == e
  {
    assert e in s;
  }

  /** Every element of the result is the inserted one or an element of the input. */
  lemma InsertElements<T>(key: T -> Ext, x: T, s: seq<T>, k: int)
    requires 0 <= k < |s| + 1
    ensures Insert(key, x, s)[k] == x || exists m :: 0 <= m < |s| && s[m] == Insert(key, x, s)[k]
  {
    var r := Insert(key, x, s);
    assert r[k] in multiset(r);
    assert multiset(s + [x]) == multiset(s) + multiset{x};
    InMultisetHasIndex(r[k], s + [x]);
  }

  lemma InsertNumeric<T>(key: T -> Ext, x: T, s: seq<T>)
    requires NumericKeys(key, s) && key(x).IsNumber()
    ensures NumericKeys(key, Insert(key, x, s))
  {
    var r := Insert(key, x, s);
    forall k | 0 <= k < |r|
      ensures key(r[k]).IsNumber()
    {
      InsertElements(key, x, s, k);
    }
  }

  /** A key at most `x`'s and every key of `s` is at most every key after insertion. */
  lemma InsertAbove<T>(key: T -> Ext, x: T, s: seq<T>, lo: Ext)
    requires lo.Le(key(x)) && forall m | 0 <= m < |s| :: lo.Le(key(s[m]))
    ensures forall k | 0 <= k < |s| + 1 :: lo.Le(key(Insert(key, x, s)[k]))
  {
    forall k | 0 <= k < |s| + 1
      ensures lo.Le(key(Insert(key, x, s)[k]))
    {
      InsertElements(key, x, s, k);
    }
  }

  lemma {:induction false} InsertSorted<T>(key: T -> Ext, x: T, s: seq<T>)
    requires SortedBy(key, s) && NumericKeys(key, s) && key(x).IsNumber()
    ensures SortedBy(key, Insert(key, x, s))
    ensures NumericKeys(key, Insert(key, x, s))
  {
    InsertNumeric(key, x, s);
    var r := Insert(key, x, s);
    if |s| == 0 {
    } else if key(x).Lt(key(s[0])) {
      forall i, j | 0 <= i < j < |r|
        ensures key(r[i]).Le(key(r[j]))
      {
        if i == 0 {
          assert key(x).Le(key(s[0]));
          if j > 1 {
            LeTransitive(key(x), key(s[0]), key(s[j - 1]));
          }
        }
      }
    } else {
      var t := s[1..];
      assert SortedBy(key, t) && NumericKeys(key, t);
      InsertSorted(key, x, t);
      var rt := Insert(key, x, t);
      assert r == [s[0]] + rt;
      LeTotal(key(s[0]), key(x));
      assert forall m | 0 <= m < |t| :: key(s[0]).Le(key(t[m])) by {
        forall m | 0 <= m < |t|
          ensures key(s[0]).Le(key(t[m]))
        {
          assert t[m] == s[m + 1];
        }
      }
      InsertAbove(key, x, t, key(s[0]));
      forall i, j | 0 <= i < j < |r|
        ensures key(r[i]).Le(key(r[j]))
      {
        if i == 0 {
          assert r[j] == rt[j - 1];
        } else {
          assert r[i] == rt[i - 1] && r[j] == rt[j - 1];
        }
      }
    }
  }

  /** With numeric keys the result is ordered by key. */
  lemma {:induction false} SortSorted<T>(key: T -> Ext, s: seq<T>)
    requires NumericKeys(key, s)
    ensures SortedBy(key, Sort(key, s))
    ensures NumericKeys(key, Sort(key, s))
  {
    if |s| > 0 {
      var front := s[..|s| - 1];
      assert NumericKeys(key, front);
      SortSorted(key, front);
      InsertSorted(key, s[|s| - 1], Sort(key, front));
    }
  }

  /** After sorting, every key in a prefix is at most every key in the rest. */
  lemma SortSplits<T>(key: T -> Ext, s: seq<T>, mid: int)
    requires NumericKeys(key, s) && 0 <= mid <= |s|
    ensures var r := Sort(key, s);
      var lo, hi := r[..mid], r[mid..];
      forall i, j | 0 <= i < |lo| && 0 <= j < |hi| :: key(lo[i]).Le(key(hi[j]))
  {
    SortSorted(key, s);
    var r := Sort(key, s);
    var lo, hi := r[..mid], r[mid..];
    forall i, j | 0 <= i < |lo| && 0 <= j < |hi|
      ensures key(lo[i]).Le(key(hi[j]))
    {
      assert lo[i] == r[i] && hi[j] == r[mid + j];
    }
  }
}
